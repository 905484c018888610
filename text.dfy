/**
 * The JavaScript string operations the import screens and list screens use:
 * `trim`, `includes`, `indexOf`, `replace` with a string pattern, `split` on
 * a character and on the regular expression `/\s{2,}/`, `toLowerCase` and
 * `toUpperCase`, and the accent stripping of `normalize("NFD")` followed by
 * removal of U+0300..U+036F.
 *
 * Case mapping and decomposition are modelled for ASCII and Latin-1 only.
 */
module Text {
  import opened Wrappers

  // ---------------------------------------------------------------------
  // Whitespace and trimming
  // ---------------------------------------------------------------------

  /** ECMAScript WhiteSpace and LineTerminator: what `trim` removes and what `\s` matches. */
  predicate IsSpace(c: char) {
    || c == '\t' || c == '\n' || c == '\U{000B}' || c == '\U{000C}' || c == '\r' || c == ' '
    || c == '\U{00A0}' || c == '\U{1680}' || ('\U{2000}' <= c <= '\U{200A}')
    || c == '\U{2028}' || c == '\U{2029}' || c == '\U{202F}' || c == '\U{205F}'
    || c == '\U{3000}' || c == '\U{FEFF}'
  }

  /** Every character of `s` is whitespace (this includes the empty string). */
  predicate IsBlank(s: string) {
    forall i :: 0 <= i < |s| ==> IsSpace(s[i])
  }

  /** Drops leading whitespace: the result is a suffix of `s` that does not start with whitespace. */
  function TrimStart(s: string): (r: string)
    ensures |r| <= |s| && r == s[|s| - |r|..]
    ensures r == [] || !IsSpace(r[0])
    ensures forall i :: 0 <= i < |s| - |r| ==> IsSpace(s[i])
  {
    if s != [] && IsSpace(s[0]) then
      var r := TrimStart(s[1..]);
      assert s[1..][|s| - 1 - |r|..] == s[|s| - |r|..];
      assert forall i :: 1 <= i < |s| - |r| ==> s[i] == s[1..][i - 1];
      r
    else s
  }

  /** Drops trailing whitespace: the result is a prefix of `s` that does not end with whitespace. */
  function TrimEnd(s: string): (r: string)
    ensures |r| <= |s| && r == s[..|r|]
    ensures r == [] || !IsSpace(r[|r| - 1])
    ensures forall i :: |r| <= i < |s| ==> IsSpace(s[i])
  {
    if s != [] && IsSpace(s[|s| - 1]) then TrimEnd(s[..|s| - 1]) else s
  }

  /** `String.prototype.trim`. */
  function Trim(s: string): (r: string)
  {
    TrimEnd(TrimStart(s))
  }

  /**
   * `String.prototype.length`, which counts UTF-16 code units: a character
   * above U+FFFF is a surrogate pair and counts twice. The length is never
   * below the number of characters, nor above twice that number.
   */
  function Utf16Length(s: string): (n: nat)
    ensures |s| <= n <= 2 * |s|
  {
    if s == [] then 0 else (if s[0] as int > 0xFFFF then 2 else 1) + Utf16Length(s[1..])
  }

  /** A text of characters in the Basic Multilingual Plane has as many code units as characters. */
  lemma {:induction false} Utf16LengthBmp(s: string)
    requires forall i :: 0 <= i < |s| ==> s[i] as int <= 0xFFFF
    ensures Utf16Length(s) == |s|
  {
    if s != [] {
      assert forall i :: 0 <= i < |s[1..]| ==> s[1..][i] == s[i + 1];
      Utf16LengthBmp(s[1..]);
    }
  }

  /** The trimmed string is a contiguous piece of the input with no whitespace at either end, and only whitespace was cut away. */
  lemma TrimSpec(s: string)
    ensures exists i, j :: 0 <= i <= j <= |s| && Trim(s) == s[i..j]
                        && IsBlank(s[..i]) && IsBlank(s[j..])
    ensures Trim(s) == [] || (!IsSpace(Trim(s)[0]) && !IsSpace(Trim(s)[|Trim(s)| - 1]))
  {
    var t := TrimStart(s);
    var i := |s| - |t|;
    var j := i + |TrimEnd(t)|;
    assert Trim(s) == s[i..j];
    assert IsBlank(s[..i]) by {
      forall k | 0 <= k < i ensures IsSpace(s[..i][k]) { assert s[..i][k] == s[k]; }
    }
    assert IsBlank(s[j..]) by {
      forall k | 0 <= k < |s| - j ensures IsSpace(s[j..][k]) {
        assert s[j..][k] == t[j - i + k];
      }
    }
    if Trim(s) != [] {
      assert TrimEnd(t)[0] == t[0];
    }
  }

  /** `s.trim()` is falsy in JavaScript exactly when `s` is blank. */
  lemma TrimEmptyIffBlank(s: string)
    ensures Trim(s) == [] <==> IsBlank(s)
  {
    var t := TrimStart(s);
    if Trim(s) == [] {
      assert t == [];
    } else {
      assert !IsSpace(t[0]);
      assert t[0] == s[|s| - |t|];
    }
  }

  /** A text with no whitespace at either end is its own trim. */
  lemma TrimUnchanged(s: string)
    requires s == [] || (!IsSpace(s[0]) && !IsSpace(s[|s| - 1]))
    ensures Trim(s) == s
  {
  }

  /** Trimming twice is trimming once. */
  lemma TrimIdempotent(s: string)
    ensures Trim(Trim(s)) == Trim(s)
  {
    var r := Trim(s);
    if r != [] {
      assert TrimStart(r) == r;
      assert TrimEnd(r) == r;
    }
  }

  // ---------------------------------------------------------------------
  // Case mapping and accent stripping (ASCII and Latin-1)
  // ---------------------------------------------------------------------

  /** `toLowerCase` on one character: A-Z and the Latin-1 capitals U+00C0..U+00DE (except U+00D7). */
  function LowerChar(c: char): char {
    if 'A' <= c <= 'Z' || ('\U{00C0}' <= c <= '\U{00DE}' && c != '\U{00D7}') then
      (c as int + 32) as char
    else c
  }

  /** `String.prototype.toLowerCase`, character by character. */
  function Lower(s: string): (r: string)
    ensures |r| == |s|
  {
    if s == [] then [] else [LowerChar(s[0])] + Lower(s[1..])
  }

  /**
   * `toUpperCase` on one character: a-z, the Latin-1 small letters
   * U+00E0..U+00FE (except U+00F7), ÿ to U+0178 and the micro sign to the
   * Greek capital mu U+039C.
   */
  function UpperChar(c: char): char {
    if 'a' <= c <= 'z' || ('\U{00E0}' <= c <= '\U{00FE}' && c != '\U{00F7}') then
      (c as int - 32) as char
    else if c == '\U{00FF}' then '\U{0178}'
    else if c == '\U{00B5}' then '\U{039C}'
    else c
  }

  /** `String.prototype.toUpperCase`; the sharp s becomes the two letters "SS". */
  function Upper(s: string): string {
    if s == [] then []
    else (if s[0] == '\U{00DF}' then "SS" else [UpperChar(s[0])]) + Upper(s[1..])
  }

  /** The base letter of a Latin-1 letter under canonical decomposition; other characters are unchanged. */
  function BaseLetter(c: char): char {
    if '\U{00C0}' <= c <= '\U{00C5}' then 'A'
    else if c == '\U{00C7}' then 'C'
    else if '\U{00C8}' <= c <= '\U{00CB}' then 'E'
    else if '\U{00CC}' <= c <= '\U{00CF}' then 'I'
    else if c == '\U{00D1}' then 'N'
    else if '\U{00D2}' <= c <= '\U{00D6}' then 'O'
    else if '\U{00D9}' <= c <= '\U{00DC}' then 'U'
    else if c == '\U{00DD}' then 'Y'
    else if '\U{00E0}' <= c <= '\U{00E5}' then 'a'
    else if c == '\U{00E7}' then 'c'
    else if '\U{00E8}' <= c <= '\U{00EB}' then 'e'
    else if '\U{00EC}' <= c <= '\U{00EF}' then 'i'
    else if c == '\U{00F1}' then 'n'
    else if '\U{00F2}' <= c <= '\U{00F6}' then 'o'
    else if '\U{00F9}' <= c <= '\U{00FC}' then 'u'
    else if c == '\U{00FD}' || c == '\U{00FF}' then 'y'
    else c
  }

  /** A combining diacritical mark, U+0300..U+036F. */
  predicate IsCombiningMark(c: char) {
    '\U{0300}' <= c <= '\U{036F}'
  }

  /** `s.normalize("NFD").replace(/[̀-ͯ]/g, "")`: decompose, then drop the combining marks. */
  function StripAccents(s: string): (r: string)
    ensures |r| <= |s|
    ensures forall i :: 0 <= i < |r| ==> !IsCombiningMark(r[i])
  {
    if s == [] then []
    else if IsCombiningMark(s[0]) then StripAccents(s[1..])
    else [BaseLetter(s[0])] + StripAccents(s[1..])
  }

  // ---------------------------------------------------------------------
  // Searching and replacing
  // ---------------------------------------------------------------------

  /** The first position at or after `k` where `t` occurs in `s`. */
  function IndexFrom(s: string, t: string, k: nat): (r: Option<nat>)
    requires k <= |s|
    ensures r.Some? ==> k <= r.value && r.value + |t| <= |s| && s[r.value..r.value + |t|] == t
    ensures r.Some? ==> forall j :: k <= j < r.value ==> !(t <= s[j..])
    ensures r.None? ==> forall j :: k <= j <= |s| ==> !(t <= s[j..])
    decreases |s| - k
  {
    if t <= s[k..] then Some(k)
    else if k == |s| then None
    else IndexFrom(s, t, k + 1)
  }

  /** `s.indexOf(t)`, with `None` for -1. */
  function IndexOf(s: string, t: string): Option<nat> {
    IndexFrom(s, t, 0)
  }

  /** `s.includes(t)`. */
  predicate Contains(s: string, t: string) {
    IndexOf(s, t).Some?
  }

  /** `includes` holds exactly when `t` occurs at some position of `s`. */
  lemma ContainsIff(s: string, t: string)
    ensures Contains(s, t) <==> exists i :: 0 <= i <= |s| && t <= s[i..]
  {
    var r := IndexOf(s, t);
    if r.Some? {
      assert t <= s[r.value..];
    }
  }

  /** A string that occurs at position `i` is found. */
  lemma ContainsAt(s: string, t: string, i: nat)
    requires i <= |s| && t <= s[i..]
    ensures Contains(s, t)
  {
    ContainsIff(s, t);
  }

  /** Every string contains the empty string and itself. */
  lemma ContainsTrivial(s: string)
    ensures Contains(s, "") && Contains(s, s)
  {
    ContainsAt(s, "", 0);
    ContainsAt(s, s, 0);
  }

  /** `t` does not occur in `s` when no position that leaves room for it starts with its first two characters. */
  lemma NotContainedPair(s: string, t: string)
    requires |t| >= 2
    requires forall i :: 0 <= i <= |s| - |t| ==> s[i] != t[0] || s[i + 1] != t[1]
    ensures !Contains(s, t)
  {
    ContainsIff(s, t);
    forall i | 0 <= i <= |s| ensures !(t <= s[i..]) {
      if i + |t| <= |s| {
        assert s[i..][0] == s[i] && s[i..][1] == s[i + 1];
      }
    }
  }

  /** `s.replace(pat, rep)` with a string pattern: only the first occurrence is replaced. */
  function ReplaceFirst(s: string, pat: string, rep: string): (r: string)
  {
    match IndexOf(s, pat)
    case None => s
    case Some(i) => s[..i] + rep + s[i + |pat|..]
  }

  /** What `replace` does: nothing when the pattern is absent; otherwise the text before the first occurrence, the replacement, and the rest. */
  lemma ReplaceFirstSpec(s: string, pat: string, rep: string)
    ensures !Contains(s, pat) ==> ReplaceFirst(s, pat, rep) == s
    ensures Contains(s, pat) ==>
      exists i :: 0 <= i <= |s| - |pat| && s[i..i + |pat|] == pat
        && ReplaceFirst(s, pat, rep) == s[..i] + rep + s[i + |pat|..]
        && (forall j :: 0 <= j < i ==> !(pat <= s[j..]))
  {
    var r := IndexOf(s, pat);
    if r.Some? {
      ReplaceFirstFound(s, pat, rep, r.value);
    }
  }

  /** The replacement at the position `indexOf` reports. */
  lemma ReplaceFirstFound(s: string, pat: string, rep: string, i: nat)
    requires IndexOf(s, pat) == Some(i)
    ensures i <= |s| - |pat| && s[i..i + |pat|] == pat
    ensures ReplaceFirst(s, pat, rep) == s[..i] + rep + s[i + |pat|..]
    ensures forall j :: 0 <= j < i ==> !(pat <= s[j..])
  {
  }

  /** Replacing a character replaces its first occurrence. */
  lemma ReplaceFirstChar(x: string, c: char, y: string, rep: string)
    requires c !in x
    ensures ReplaceFirst(x + [c] + y, [c], rep) == x + rep + y
  {
    var s := x + [c] + y;
    assert forall j :: 0 <= j < |x| ==> s[j] == x[j];
    IndexFromChar(s, c, 0, |x|);
    assert s[..|x|] == x && s[|x| + 1..] == y;
  }

  /** Searching for a character from `k` finds its first occurrence at or after `k`. */
  lemma {:induction false} IndexFromChar(s: string, c: char, k: nat, n: nat)
    requires k <= n < |s| && s[n] == c
    requires forall j :: k <= j < n ==> s[j] != c
    ensures IndexFrom(s, [c], k) == Some(n)
    decreases n - k
  {
    if k < n {
      assert !([c] <= s[k..]) by { assert s[k..][0] == s[k]; }
      IndexFromChar(s, c, k + 1, n);
    } else {
      assert [c] <= s[k..] by { assert s[k..][..1] == [s[k]]; }
    }
  }

  /** A text that starts with the pattern has its start replaced. */
  lemma ReplaceFirstAtStart(s: string, pat: string, rep: string)
    requires pat <= s
    ensures ReplaceFirst(s, pat, rep) == rep + s[|pat|..]
  {
    assert s[0..] == s;
  }

  /** `s.replace(/c/g, "")`: every occurrence of `c` removed. */
  function RemoveAll(s: string, c: char): (r: string)
    ensures c !in r
    ensures |r| <= |s|
  {
    if s == [] then []
    else if s[0] == c then RemoveAll(s[1..], c)
    else [s[0]] + RemoveAll(s[1..], c)
  }

  /** Characters are only removed, never introduced. */
  lemma {:induction false} RemoveAllSubset(s: string, c: char)
    ensures forall d :: d in RemoveAll(s, c) ==> d in s
  {
    if s != [] {
      RemoveAllSubset(s[1..], c);
    }
  }

  /** Text without `c` is left alone. */
  lemma {:induction false} RemoveAllNone(s: string, c: char)
    requires c !in s
    ensures RemoveAll(s, c) == s
  {
    if s != [] {
      RemoveAllNone(s[1..], c);
      assert s == [s[0]] + s[1..];
    }
  }

  /** Removal works piece by piece. */
  lemma {:induction false} RemoveAllAppend(a: string, b: string, c: char)
    ensures RemoveAll(a + b, c) == RemoveAll(a, c) + RemoveAll(b, c)
  {
    if a == [] {
      assert a + b == b;
    } else {
      assert (a + b)[0] == a[0] && (a + b)[1..] == a[1..] + b;
      RemoveAllAppend(a[1..], b, c);
    }
  }

  /** A one-character pattern is contained exactly when that character occurs. */
  lemma ContainsChar(s: string, d: char)
    ensures Contains(s, [d]) <==> d in s
  {
    ContainsIff(s, [d]);
    if d in s {
      var k :| 0 <= k < |s| && s[k] == d;
      assert [d] <= s[k..];
    }
    if Contains(s, [d]) {
      var i :| 0 <= i <= |s| && [d] <= s[i..];
      assert s[i] == d;
    }
  }

  // ---------------------------------------------------------------------
  // Splitting
  // ---------------------------------------------------------------------

  /** `s.split(c)` with a one-character separator: always at least one piece, none containing `c`. */
  function SplitOn(s: string, c: char): (r: seq<string>)
    ensures |r| >= 1
    ensures forall i :: 0 <= i < |r| ==> c !in r[i]
    ensures r[0] <= s
  {
    if s == [] then [""]
    else if s[0] == c then [""] + SplitOn(s[1..], c)
    else
      var rest := SplitOn(s[1..], c);
      [[s[0]] + rest[0]] + rest[1..]
  }

  /** The pieces joined with the separator. */
  function Join(pieces: seq<string>, c: char): string
    requires |pieces| >= 1
  {
    if |pieces| == 1 then pieces[0] else pieces[0] + [c] + Join(pieces[1..], c)
  }

  /** Splitting loses nothing: joining the pieces back with the separator gives the input. */
  lemma {:induction false} SplitOnJoin(s: string, c: char)
    ensures Join(SplitOn(s, c), c) == s
  {
    if s == [] {
    } else if s[0] == c {
      SplitOnJoin(s[1..], c);
      assert SplitOn(s, c)[1..] == SplitOn(s[1..], c);
    } else {
      SplitOnJoin(s[1..], c);
      var rest := SplitOn(s[1..], c);
      var r := SplitOn(s, c);
      if |rest| == 1 {
        assert r == [[s[0]] + rest[0]];
      } else {
        assert r[1..] == rest[1..];
        assert Join(rest, c) == rest[0] + [c] + Join(rest[1..], c);
      }
    }
  }

  /** The first piece of `s.split(c)` is the text before the first `c` (all of `s` when there is none). */
  lemma SplitOnFirst(s: string, c: char)
    ensures c !in s ==> SplitOn(s, c) == [s]
    ensures c in s ==> exists i :: 0 <= i < |s| && s[i] == c && SplitOn(s, c)[0] == s[..i]
  {
    if c in s {
      SplitOnAt(s, c);
    } else {
      SplitOnAbsent(s, c);
    }
  }

  /** Without the separator there is one piece, the whole text. */
  lemma {:induction false} SplitOnAbsent(s: string, c: char)
    requires c !in s
    ensures SplitOn(s, c) == [s]
  {
    if s != [] {
      assert s[0] != c;
      assert c !in s[1..] by {
        forall k | 0 <= k < |s[1..]| ensures s[1..][k] != c { assert s[1..][k] == s[k + 1]; }
      }
      SplitOnAbsent(s[1..], c);
      assert [s[0]] + s[1..] == s;
    }
  }

  /** With the separator, the first piece ends at a `c`. */
  lemma {:induction false} SplitOnAt(s: string, c: char)
    requires c in s
    ensures exists i :: 0 <= i < |s| && s[i] == c && SplitOn(s, c)[0] == s[..i]
  {
    if s[0] == c {
      assert SplitOn(s, c)[0] == s[..0];
    } else {
      var tail := s[1..];
      assert c in tail by {
        var k :| 0 <= k < |s| && s[k] == c;
        assert tail[k - 1] == c;
      }
      SplitOnAt(tail, c);
      var i :| 0 <= i < |tail| && tail[i] == c && SplitOn(tail, c)[0] == tail[..i];
      assert SplitOn(s, c)[0] == [s[0]] + SplitOn(tail, c)[0];
      assert s[..i + 1] == [s[0]] + tail[..i];
      assert s[i + 1] == c;
    }
  }

  /** Two consecutive whitespace characters start at position `j` of `s`. */
  predicate WideGapAt(s: string, j: int) {
    0 <= j < |s| - 1 && IsSpace(s[j]) && IsSpace(s[j + 1])
  }

  /** No run of two or more whitespace characters occurs in `s`. */
  predicate NoWideGap(s: string) {
    forall j :: 0 <= j < |s| - 1 ==> !WideGapAt(s, j)
  }

  /** Drops the leading whitespace of `s` (the rest of a matched gap). */
  function DropSpaces(s: string): (r: string)
    ensures |r| <= |s| && r == s[|s| - |r|..]
    ensures r == [] || !IsSpace(r[0])
  {
    if s != [] && IsSpace(s[0]) then DropSpaces(s[1..]) else s
  }

  /**
   * `s.split(/\s{2,}/)`: cut at every maximal run of two or more whitespace
   * characters, scanning from the left; a run at either end yields an empty piece.
   */
  function SplitWide(s: string): (r: seq<string>)
    ensures |r| >= 1
    ensures r[0] <= s
  {
    if WideGapAt(s, 0) then [""] + SplitWide(DropSpaces(s[2..]))
    else if s == [] then [""]
    else
      var rest := SplitWide(s[1..]);
      [[s[0]] + rest[0]] + rest[1..]
  }

  /** No piece contains a run of two whitespace characters, and no piece after the first starts with whitespace. */
  lemma {:induction false} SplitWidePieces(s: string)
    ensures forall i :: 0 <= i < |SplitWide(s)| ==> NoWideGap(SplitWide(s)[i])
    ensures forall i :: 1 <= i < |SplitWide(s)| ==> SplitWide(s)[i] == [] || !IsSpace(SplitWide(s)[i][0])
  {
    if WideGapAt(s, 0) {
      SplitWidePieces(DropSpaces(s[2..]));
      var d := DropSpaces(s[2..]);
      assert SplitWide(d)[0] <= d;
      assert SplitWide(s)[1..] == SplitWide(d);
    } else if s != [] {
      SplitWidePieces(s[1..]);
      var rest := SplitWide(s[1..]);
      var head := [s[0]] + rest[0];
      assert SplitWide(s) == [head] + rest[1..];
      assert NoWideGap(head) by {
        forall j | 0 <= j < |head| - 1 ensures !WideGapAt(head, j) {
          if j == 0 {
            assert head[1] == rest[0][0] == s[1];
          } else {
            assert head[j] == rest[0][j - 1] && head[j + 1] == rest[0][j];
            assert !WideGapAt(rest[0], j - 1);
          }
        }
      }
    }
  }

  /** Text without a wide gap is not split at all. */
  lemma {:induction false} SplitWideNoGap(s: string)
    requires NoWideGap(s)
    ensures SplitWide(s) == [s]
  {
    if s != [] {
      assert !WideGapAt(s, 0);
      assert NoWideGap(s[1..]) by {
        forall j | 0 <= j < |s[1..]| - 1 ensures !WideGapAt(s[1..], j) {
          assert !WideGapAt(s, j + 1);
        }
      }
      SplitWideNoGap(s[1..]);
      assert [s[0]] + s[1..] == s;
    }
  }

  /** A piece followed by a run of whitespace splits off as the first piece. */
  lemma {:induction false} SplitWideCons(a: string, gap: string, rest: string)
    requires NoWideGap(a) && (a == [] || !IsSpace(a[|a| - 1]))
    requires |gap| >= 2 && IsBlank(gap)
    requires rest == [] || !IsSpace(rest[0])
    ensures SplitWide(a + gap + rest) == [a] + SplitWide(rest)
  {
    if a == [] {
      assert a + gap + rest == gap + rest;
      SplitWideGap(gap, rest);
    } else {
      NoWideGapTail(a, gap);
      SplitWideCons(a[1..], gap, rest);
      SplitWideConsStep(a, gap, rest);
    }
  }

  /** The step of `SplitWideCons`: a first character that opens no gap joins the first piece. */
  lemma SplitWideConsStep(a: string, gap: string, rest: string)
    requires a != [] && gap != []
    requires !IsSpace(a[0]) || !IsSpace((a[1..] + gap)[0])
    requires SplitWide(a[1..] + gap + rest) == [a[1..]] + SplitWide(rest)
    ensures SplitWide(a + gap + rest) == [a] + SplitWide(rest)
  {
    var s := a + gap + rest;
    var t := a[1..] + gap + rest;
    ConcatFirst(a, gap, rest);
    SplitWideFirst(s);
    JoinFirst(a[0], a[1..], SplitWide(rest), SplitWide(t));
  }

  /** How `a + gap + rest` splits after its first character. */
  lemma ConcatFirst(a: string, gap: string, rest: string)
    requires a != [] && gap != []
    ensures (a + gap + rest)[1..] == a[1..] + gap + rest
    ensures (a + gap + rest)[0] == a[0] && (a + gap + rest)[1] == (a[1..] + gap)[0]
    ensures [a[0]] + a[1..] == a
  {
  }

  /** Unfolding `SplitWide` at a first character that opens no gap. */
  lemma SplitWideFirst(s: string)
    requires s != [] && !WideGapAt(s, 0)
    ensures SplitWide(s) == [[s[0]] + SplitWide(s[1..])[0]] + SplitWide(s[1..])[1..]
  {
  }

  lemma JoinFirst(c: char, p: string, tail: seq<string>, r: seq<string>)
    requires r == [p] + tail
    ensures [[c] + r[0]] + r[1..] == [[c] + p] + tail
  {
    assert r[0] == p && r[1..] == tail;
  }

  /** Dropping the first character keeps a piece gap-free, and a gap-free piece's first character does not open a gap before `next`. */
  lemma NoWideGapTail(a: string, gap: string)
    requires a != [] && NoWideGap(a) && !IsSpace(a[|a| - 1]) && gap != []
    ensures NoWideGap(a[1..]) && (a[1..] == [] || !IsSpace(a[|a| - 1]))
    ensures !IsSpace(a[0]) || !IsSpace((a[1..] + gap)[0])
  {
    var a' := a[1..];
    forall j | 0 <= j < |a'| - 1 ensures !WideGapAt(a', j) { assert !WideGapAt(a, j + 1); }
    if a' != [] { assert !WideGapAt(a, 0); }
  }

  /** A leading gap of two or more blanks makes an empty first piece. */
  lemma SplitWideGap(gap: string, rest: string)
    requires |gap| >= 2 && IsBlank(gap)
    requires rest == [] || !IsSpace(rest[0])
    ensures SplitWide(gap + rest) == [""] + SplitWide(rest)
  {
    var s := gap + rest;
    assert WideGapAt(s, 0);
    assert s[2..] == gap[2..] + rest;
    DropSpacesBlank(gap[2..], rest);
  }

  /** The pieces joined with two spaces between them. */
  function JoinWide(pieces: seq<string>): string
    requires |pieces| >= 1
  {
    if |pieces| == 1 then pieces[0] else pieces[0] + "  " + JoinWide(pieces[1..])
  }

  /** A piece with no wide gap and no whitespace at either end. */
  predicate CleanPiece(p: string) {
    NoWideGap(p) && (p == [] || (!IsSpace(p[0]) && !IsSpace(p[|p| - 1])))
  }

  /** Round trip: columns that are clean pieces, laid out two spaces apart, split back into the same columns. */
  lemma {:induction false} SplitWideJoinWide(pieces: seq<string>)
    requires |pieces| >= 1
    requires forall i :: 0 <= i < |pieces| ==> CleanPiece(pieces[i])
    requires forall i :: 1 <= i < |pieces| ==> pieces[i] != []
    ensures SplitWide(JoinWide(pieces)) == pieces
  {
    if |pieces| == 1 {
      SplitWideNoGap(pieces[0]);
    } else {
      var tail := pieces[1..];
      JoinWideSplitStep(pieces);
      SplitWideJoinWide(tail);
      assert [pieces[0]] + tail == pieces;
    }
  }

  /** Splitting the joined text cuts the first piece off at the first gap. */
  lemma JoinWideSplitStep(pieces: seq<string>)
    requires |pieces| >= 2 && CleanPiece(pieces[0]) && CleanPiece(pieces[1]) && pieces[1] != []
    ensures SplitWide(JoinWide(pieces)) == [pieces[0]] + SplitWide(JoinWide(pieces[1..]))
  {
    var tail := pieces[1..];
    var rest := JoinWide(tail);
    assert JoinWide(pieces) == pieces[0] + "  " + rest;
    assert rest == [] || !IsSpace(rest[0]) by {
      JoinWideStarts(tail);
      assert tail[0] == pieces[1];
    }
    SplitWideCons(pieces[0], "  ", rest);
  }

  /** The joined text starts with the first piece. */
  lemma {:induction false} JoinWideStarts(pieces: seq<string>)
    requires |pieces| >= 1
    ensures pieces[0] <= JoinWide(pieces)
  {
  }

  /** Dropping leading whitespace from a blank prefix reaches the following non-blank text. */
  lemma {:induction false} DropSpacesBlank(g: string, b: string)
    requires IsBlank(g)
    requires b == [] || !IsSpace(b[0])
    ensures DropSpaces(g + b) == b
  {
    if g != [] {
      assert (g + b)[1..] == g[1..] + b;
      DropSpacesBlank(g[1..], b);
    } else {
      assert g + b == b;
    }
  }
}
