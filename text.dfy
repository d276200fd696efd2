/**
 * The pieces of Python's `str` that the flashcard pipeline relies on:
 * `isspace`, `strip()`, `split(sep)`, `sep.join(parts)`, `replace(old, new, 1)`,
 * the word count `len(s.split())`, and `isupper`/`upper`/`istitle`.
 *
 * A `string` is a sequence of Unicode scalar values. Whitespace is Python's
 * full `isspace` set; letter case is modelled for ASCII letters only.
 */
module Text {

  /** `c.isspace()`: the characters `strip()` and `split()` treat as whitespace. */
  predicate IsSpace(c: char) {
    || c == ' '
    || '\t' <= c <= '\r'
    || '\U{1C}' <= c <= '\U{1F}'
    || c == '\U{85}' || c == '\U{A0}' || c == '\U{1680}'
    || '\U{2000}' <= c <= '\U{200A}'
    || c == '\U{2028}' || c == '\U{2029}' || c == '\U{202F}' || c == '\U{205F}' || c == '\U{3000}'
  }

  predicate AllSpace(s: string) {
    forall i :: 0 <= i < |s| ==> IsSpace(s[i])
  }

  /** Neither leading nor trailing whitespace: what `strip()` returns. */
  predicate Stripped(s: string) {
    s == [] || (!IsSpace(s[0]) && !IsSpace(s[|s| - 1]))
  }

  lemma {:induction false} AllSpaceConcat(a: string, b: string)
    ensures AllSpace(a + b) <==> AllSpace(a) && AllSpace(b)
  {
    if AllSpace(a) && AllSpace(b) {
      forall i | 0 <= i < |a + b| ensures IsSpace((a + b)[i]) {
        if i >= |a| { assert (a + b)[i] == b[i - |a|]; }
      }
    }
    if AllSpace(a + b) {
      forall i | 0 <= i < |a| ensures IsSpace(a[i]) {
        assert (a + b)[i] == a[i];
      }
      forall i | 0 <= i < |b| ensures IsSpace(b[i]) {
        assert (a + b)[|a| + i] == b[i];
      }
    }
  }

  /** `s.lstrip()`: drops the leading whitespace and keeps the rest. */
  function StripStart(s: string): string
    decreases |s|
  {
    if s != [] && IsSpace(s[0]) then StripStart(s[1..]) else s
  }

  /** `s.rstrip()`: drops the trailing whitespace and keeps the rest. */
  function StripEnd(s: string): string
    decreases |s|
  {
    if s != [] && IsSpace(s[|s| - 1]) then StripEnd(s[..|s| - 1]) else s
  }

  /** `s.strip()`: `StripStart` then `StripEnd`. */
  function Strip(s: string): string {
    StripEnd(StripStart(s))
  }

  /** `lstrip` removes a blank prefix, and what it keeps does not start with whitespace. */
  lemma {:induction false} StripStartSpec(s: string)
    ensures var r := StripStart(s);
      |r| <= |s| && r == s[|s| - |r|..] && AllSpace(s[..|s| - |r|]) && (r != [] ==> !IsSpace(r[0]))
    decreases |s|
  {
    if s != [] && IsSpace(s[0]) {
      StripStartSpec(s[1..]);
      var r := StripStart(s[1..]);
      var n := |s| - |r|;
      assert forall i :: 1 <= i < n ==> s[..n][i] == s[1..][..n - 1][i - 1];
    }
  }

  /** `rstrip` removes a blank suffix, and what it keeps does not end with whitespace. */
  lemma {:induction false} StripEndSpec(s: string)
    ensures var r := StripEnd(s);
      |r| <= |s| && r == s[..|r|] && AllSpace(s[|r|..]) && (r != [] ==> !IsSpace(r[|r| - 1]))
    decreases |s|
  {
    if s != [] && IsSpace(s[|s| - 1]) {
      StripEndSpec(s[..|s| - 1]);
      var r := StripEnd(s[..|s| - 1]);
      assert forall i :: |r| <= i < |s| - 1 ==> s[i] == s[..|s| - 1][i];
    }
  }

  /**
   * `strip` leaves no whitespace at either end, is empty exactly when `s` is
   * blank, and leaves an already stripped string alone.
   */
  lemma {:induction false} StripSpec(s: string)
    ensures Stripped(Strip(s))
    ensures Strip(s) == [] <==> AllSpace(s)
    ensures Stripped(s) ==> Strip(s) == s
    ensures |Strip(s)| <= |s|
  {
    var t := StripStart(s);
    StripStartSpec(s);
    StripEndSpec(t);
    var r := StripEnd(t);
    var k := |s| - |t|;
    if r == [] {
      forall i | 0 <= i < |s| ensures IsSpace(s[i]) {
        assert s[i] == s[..k][i];
      }
    }
  }

  /** `pat` occurs in `s` starting at index `i`. */
  predicate OccursAt(s: string, pat: string, i: nat) {
    i + |pat| <= |s| && s[i..i + |pat|] == pat
  }

  /** `pat in s`. */
  predicate Contains(s: string, pat: string)
    decreases |s|
  {
    |pat| <= |s| && (s[..|pat|] == pat || (s != [] && Contains(s[1..], pat)))
  }

  lemma {:induction false} ContainsInSuffix(s: string, pat: string, i: nat)
    requires i <= |s| && Contains(s[i..], pat)
    ensures Contains(s, pat)
    decreases i
  {
    if i > 0 {
      assert s[1..][i - 1..] == s[i..];
      ContainsInSuffix(s[1..], pat, i - 1);
    }
  }

  lemma {:induction false} ContainsInPrefix(s: string, pat: string, j: nat)
    requires j <= |s| && Contains(s[..j], pat)
    ensures Contains(s, pat)
    decreases |s|
  {
    assert s[..j][..|pat|] == s[..|pat|];
    if s[..|pat|] != pat {
      assert s[..j][1..] == s[1..][..j - 1];
      ContainsInPrefix(s[1..], pat, j - 1);
    }
  }

  /** Stripping a string can only lose occurrences of a pattern. */
  lemma {:induction false} StripKeepsAbsent(s: string, pat: string)
    requires !Contains(s, pat)
    ensures !Contains(Strip(s), pat)
  {
    var t := StripStart(s);
    StripStartSpec(s);
    StripEndSpec(t);
    if Contains(t, pat) {
      ContainsInSuffix(s, pat, |s| - |t|);
    }
    if Contains(Strip(s), pat) {
      ContainsInPrefix(t, pat, |Strip(s)|);
    }
  }

  /** A non-empty pattern that occurs in `s` has its first character in `s`. */
  lemma {:induction false} ContainsHead(s: string, pat: string)
    requires pat != [] && Contains(s, pat)
    ensures pat[0] in s
    decreases |s|
  {
    if s[..|pat|] != pat {
      ContainsHead(s[1..], pat);
    } else {
      assert s[0] == pat[0];
    }
  }

  /** An occurrence of a two-character pattern in `s + [c]` is one in `s` or ends at `c`. */
  lemma {:induction false} ContainsSnoc(s: string, c: char, pat: string)
    requires |pat| == 2 && Contains(s + [c], pat)
    ensures Contains(s, pat) || (s != [] && s[|s| - 1] == pat[0] && c == pat[1])
    decreases |s|
  {
    var t := s + [c];
    if |s| >= 2 {
      assert t[..2] == s[..2];
      if t[..2] != pat {
        assert t[1..] == s[1..] + [c];
        ContainsSnoc(s[1..], c, pat);
      }
    }
  }

  /**
   * `s.split(sep)` for a non-empty `sep`: the pieces between the
   * non-overlapping occurrences of `sep`, found from the left.
   */
  function Split(s: string, sep: string): (pieces: seq<string>)
    requires sep != []
    ensures |pieces| >= 1
    decreases |s|
  {
    if |s| < |sep| then [s]
    else if s[..|sep|] == sep then [[]] + Split(s[|sep|..], sep)
    else
      var rest := Split(s[1..], sep);
      [[s[0]] + rest[0]] + rest[1..]
  }

  /** The first piece is a prefix of `s`. */
  lemma {:induction false} SplitHead(s: string, sep: string)
    requires sep != []
    ensures |Split(s, sep)[0]| <= |s| && Split(s, sep)[0] == s[..|Split(s, sep)[0]|]
    decreases |s|
  {
    if |s| >= |sep| && s[..|sep|] != sep {
      SplitHead(s[1..], sep);
    }
  }

  /** `sep.join(parts)`. */
  function Join(parts: seq<string>, sep: string): string {
    if |parts| == 0 then []
    else if |parts| == 1 then parts[0]
    else parts[0] + sep + Join(parts[1..], sep)
  }

  /** Putting a character in front of the first part puts it in front of the join. */
  lemma {:induction false} JoinConsHead(c: char, parts: seq<string>, sep: string)
    requires |parts| >= 1
    ensures Join([[c] + parts[0]] + parts[1..], sep) == [c] + Join(parts, sep)
  {
    var pieces := [[c] + parts[0]] + parts[1..];
    if |parts| > 1 {
      assert pieces[1..] == parts[1..];
      assert Join(pieces, sep) == [c] + parts[0] + sep + Join(parts[1..], sep);
    }
  }

  /** A split that starts at a separator: an empty first piece, then the rest. */
  lemma {:induction false} SplitJoinAtSep(s: string, sep: string)
    requires sep != [] && |s| >= |sep| && s[..|sep|] == sep
    requires Join(Split(s[|sep|..], sep), sep) == s[|sep|..]
    ensures Join(Split(s, sep), sep) == s
  {
    var rest := Split(s[|sep|..], sep);
    assert Split(s, sep) == [[]] + rest;
    assert Join([[]] + rest, sep) == [] + sep + Join(rest, sep);
    assert s == sep + s[|sep|..];
  }

  /** A split that does not start at a separator: the first character joins the first piece. */
  lemma {:induction false} SplitJoinAtChar(s: string, sep: string)
    requires sep != [] && |s| >= |sep| && s[..|sep|] != sep
    requires Join(Split(s[1..], sep), sep) == s[1..]
    ensures Join(Split(s, sep), sep) == s
  {
    JoinConsHead(s[0], Split(s[1..], sep), sep);
    assert s == [s[0]] + s[1..];
  }

  /** Joining the pieces of a split with the same separator gives back the text. */
  lemma {:induction false} SplitJoin(s: string, sep: string)
    requires sep != []
    ensures Join(Split(s, sep), sep) == s
    decreases |s|
  {
    if |s| < |sep| {
    } else if s[..|sep|] == sep {
      SplitJoin(s[|sep|..], sep);
      SplitJoinAtSep(s, sep);
    } else {
      SplitJoin(s[1..], sep);
      SplitJoinAtChar(s, sep);
    }
  }

  /** No piece of a split contains the separator. */
  lemma {:induction false} SplitPiecesAbsent(s: string, sep: string)
    requires sep != []
    ensures forall k :: 0 <= k < |Split(s, sep)| ==> !Contains(Split(s, sep)[k], sep)
    decreases |s|
  {
    if |s| < |sep| {
      assert !Contains(s, sep);
    } else if s[..|sep|] == sep {
      SplitPiecesAbsent(s[|sep|..], sep);
      assert !Contains([], sep);
    } else {
      var rest := Split(s[1..], sep);
      SplitPiecesAbsent(s[1..], sep);
      SplitHead(s[1..], sep);
      var first := [s[0]] + rest[0];
      assert first == s[..|first|];
      if |sep| <= |first| {
        assert first[..|sep|] == s[..|sep|];
      }
      assert first[1..] == rest[0];
      assert !Contains(first, sep);
      var pieces := Split(s, sep);
      assert pieces == [first] + rest[1..];
      forall k | 0 <= k < |pieces| ensures !Contains(pieces[k], sep) {
        if k > 0 { assert pieces[k] == rest[k]; }
      }
    }
  }

  /** A text without the separator splits into itself alone. */
  lemma {:induction false} SplitWithoutSep(s: string, sep: string)
    requires sep != [] && !Contains(s, sep)
    ensures Split(s, sep) == [s]
    decreases |s|
  {
    if |s| >= |sep| {
      SplitWithoutSep(s[1..], sep);
      assert [s[0]] + s[1..] == s;
    }
  }

  /** Where no separator starts at the front, the first character joins the first piece. */
  lemma {:induction false} SplitStepChar(s: string, sep: string)
    requires sep != [] && |s| >= |sep| && s[..|sep|] != sep
    ensures Split(s, sep) == [[s[0]] + Split(s[1..], sep)[0]] + Split(s[1..], sep)[1..]
  {
  }

  /**
   * No separator starts at the front of `p + sep + rest` when none starts
   * inside `p` (not even one running into the separator after it), and the
   * same then holds of `p[1..]`.
   */
  lemma {:induction false} NoSepAtFront(p: string, sep: string, rest: string)
    requires sep != [] && p != [] && !Contains(p + sep[..|sep| - 1], sep)
    ensures (p + sep + rest)[..|sep|] != sep
    ensures !Contains(p[1..] + sep[..|sep| - 1], sep)
    ensures (p + sep + rest)[1..] == p[1..] + sep + rest
  {
    var y := p + sep[..|sep| - 1];
    assert y[..|sep|] == (p + sep + rest)[..|sep|];
    assert y[1..] == p[1..] + sep[..|sep| - 1];
  }

  /**
   * When no occurrence of `sep` starts inside `p` (not even one running into
   * the separator after it), splitting `p + sep + rest` cuts exactly after `p`.
   */
  lemma {:induction false} SplitAfter(p: string, sep: string, rest: string)
    requires sep != [] && !Contains(p + sep[..|sep| - 1], sep)
    ensures Split(p + sep + rest, sep) == [p] + Split(rest, sep)
    decreases |p|
  {
    var s := p + sep + rest;
    if p == [] {
      assert s[..|sep|] == sep;
      assert s[|sep|..] == rest;
    } else {
      NoSepAtFront(p, sep, rest);
      SplitAfter(p[1..], sep, rest);
      SplitStepChar(s, sep);
      assert [s[0]] + p[1..] == p;
    }
  }

  /**
   * Splitting a join gives back the parts, when no part contains the
   * separator and no separator occurrence straddles the end of a part.
   */
  lemma {:induction false} JoinSplit(parts: seq<string>, sep: string)
    requires sep != [] && |parts| >= 1
    requires forall k :: 0 <= k < |parts| - 1 ==> !Contains(parts[k] + sep[..|sep| - 1], sep)
    requires !Contains(parts[|parts| - 1], sep)
    ensures Split(Join(parts, sep), sep) == parts
    decreases |parts|
  {
    if |parts| == 1 {
      SplitWithoutSep(parts[0], sep);
    } else {
      JoinSplit(parts[1..], sep);
      assert Join(parts, sep) == parts[0] + sep + Join(parts[1..], sep);
      SplitAfter(parts[0], sep, Join(parts[1..], sep));
    }
  }

  /** The join of blank parts with a blank separator is blank, and conversely. */
  lemma {:induction false} JoinAllSpace(parts: seq<string>, sep: string)
    requires |parts| >= 1 && AllSpace(sep)
    ensures AllSpace(Join(parts, sep)) <==> forall k :: 0 <= k < |parts| ==> AllSpace(parts[k])
    decreases |parts|
  {
    if |parts| > 1 {
      var tail := parts[1..];
      JoinAllSpace(tail, sep);
      AllSpaceConcat(parts[0], sep);
      AllSpaceConcat(parts[0] + sep, Join(tail, sep));
      assert (forall k :: 0 <= k < |parts| ==> AllSpace(parts[k]))
         <==> AllSpace(parts[0]) && (forall k :: 0 <= k < |tail| ==> AllSpace(tail[k])) by {
        assert forall k :: 0 < k < |parts| ==> parts[k] == tail[k - 1];
      }
    }
  }

  /** `s.replace(pat, rep, 1)`: the first occurrence of `pat` replaced; an empty `pat` matches at the front. */
  function ReplaceFirst(s: string, pat: string, rep: string): string
    decreases |s|
  {
    if |pat| <= |s| && s[..|pat|] == pat then rep + s[|pat|..]
    else if s == [] then s
    else [s[0]] + ReplaceFirst(s[1..], pat, rep)
  }

  /** Where `pat` does not occur, `ReplaceFirst` changes nothing. */
  lemma {:induction false} ReplaceFirstAbsent(s: string, pat: string, rep: string)
    requires !Contains(s, pat)
    ensures ReplaceFirst(s, pat, rep) == s
    decreases |s|
  {
    if s != [] {
      ReplaceFirstAbsent(s[1..], pat, rep);
      assert [s[0]] + s[1..] == s;
    }
  }

  /** An occurrence past the first character is an occurrence in the tail. */
  lemma {:induction false} OccursAtTail(s: string, pat: string, j: nat)
    requires s != [] && 0 < j
    ensures OccursAt(s, pat, j) <==> OccursAt(s[1..], pat, j - 1)
  {
    if j + |pat| <= |s| {
      assert s[j..j + |pat|] == s[1..][j - 1..j - 1 + |pat|];
    }
  }

  /** The leftmost occurrence of a `pat` that `s` contains. */
  lemma {:induction false} FirstOccurrence(s: string, pat: string) returns (i: nat)
    requires Contains(s, pat)
    ensures OccursAt(s, pat, i)
    ensures forall j :: 0 <= j < i ==> !OccursAt(s, pat, j)
    decreases |s|
  {
    if s[..|pat|] == pat {
      i := 0;
    } else {
      var i' := FirstOccurrence(s[1..], pat);
      i := i' + 1;
      OccursAtTail(s, pat, i);
      forall j | 0 < j < i ensures !OccursAt(s, pat, j) {
        OccursAtTail(s, pat, j);
      }
    }
  }

  /** Where `pat` does not occur at the front, `ReplaceFirst` keeps the first character and moves on. */
  lemma {:induction false} ReplaceFirstStep(s: string, pat: string, rep: string)
    requires s != [] && !OccursAt(s, pat, 0)
    ensures ReplaceFirst(s, pat, rep) == [s[0]] + ReplaceFirst(s[1..], pat, rep)
  {
  }

  /** A leftmost occurrence past the front is, one step on, a leftmost occurrence in the tail. */
  lemma {:induction false} LeftmostInTail(s: string, pat: string, i: nat)
    requires 0 < i && OccursAt(s, pat, i)
    requires forall j :: 0 <= j < i ==> !OccursAt(s, pat, j)
    ensures s != [] && !OccursAt(s, pat, 0)
    ensures OccursAt(s[1..], pat, i - 1)
    ensures forall j :: 0 <= j < i - 1 ==> !OccursAt(s[1..], pat, j)
  {
    OccursAtTail(s, pat, i);
    forall j | 0 <= j < i - 1 ensures !OccursAt(s[1..], pat, j) {
      OccursAtTail(s, pat, j + 1);
    }
  }

  /** Splicing at `i > 0` keeps the first character in front. */
  lemma {:induction false} SpliceCons(s: string, i: nat, n: nat, rep: string)
    requires 0 < i && i + n <= |s|
    ensures s[..i] + rep + s[i + n..] == [s[0]] + (s[1..][..i - 1] + rep + s[1..][i - 1 + n..])
  {
    assert s[..i] == [s[0]] + s[1..][..i - 1];
    assert s[i + n..] == s[1..][i - 1 + n..];
  }

  /** `ReplaceFirst` swaps the leftmost occurrence of `pat` for `rep`. */
  lemma {:induction false} ReplaceFirstLeftmost(s: string, pat: string, rep: string, i: nat)
    requires OccursAt(s, pat, i)
    requires forall j :: 0 <= j < i ==> !OccursAt(s, pat, j)
    ensures ReplaceFirst(s, pat, rep) == s[..i] + rep + s[i + |pat|..]
    decreases i
  {
    if i == 0 {
      assert s[..|pat|] == pat;
      assert s[..i] == [];
    } else {
      LeftmostInTail(s, pat, i);
      ReplaceFirstLeftmost(s[1..], pat, rep, i - 1);
      ReplaceFirstStep(s, pat, rep);
      SpliceCons(s, i, |pat|, rep);
    }
  }

  /** Where `pat` occurs, `ReplaceFirst` swaps exactly its leftmost occurrence for `rep`. */
  lemma {:induction false} ReplaceFirstAt(s: string, pat: string, rep: string) returns (i: nat)
    requires Contains(s, pat)
    ensures OccursAt(s, pat, i)
    ensures forall j :: 0 <= j < i ==> !OccursAt(s, pat, j)
    ensures ReplaceFirst(s, pat, rep) == s[..i] + rep + s[i + |pat|..]
  {
    i := FirstOccurrence(s, pat);
    ReplaceFirstLeftmost(s, pat, rep, i);
  }

  /** A prefix that lacks the first character of `pat` is passed over by `ReplaceFirst`. */
  lemma {:induction false} ReplaceFirstAfter(pre: string, rest: string, pat: string, rep: string)
    requires pat != [] && pat[0] !in pre
    ensures ReplaceFirst(pre + rest, pat, rep) == pre + ReplaceFirst(rest, pat, rep)
    decreases |pre|
  {
    if pre != [] {
      var s := pre + rest;
      assert s[0] == pre[0];
      assert s[1..] == pre[1..] + rest;
      ReplaceFirstAfter(pre[1..], rest, pat, rep);
      assert [pre[0]] + pre[1..] == pre;
    } else {
      assert pre + rest == rest;
    }
  }

  /** `len(s.split())`: the number of maximal runs of non-whitespace characters. */
  function WordCount(s: string): nat
    decreases |s|
  {
    if s == [] then 0
    else if !IsSpace(s[0]) && (|s| == 1 || IsSpace(s[1])) then 1 + WordCount(s[1..])
    else WordCount(s[1..])
  }

  /** A string has no words exactly when it is blank. */
  lemma {:induction false} WordCountZero(s: string)
    ensures WordCount(s) == 0 <==> AllSpace(s)
    decreases |s|
  {
    if s != [] {
      WordCountZero(s[1..]);
      assert s == [s[0]] + s[1..];
      AllSpaceConcat([s[0]], s[1..]);
    }
  }

  /** `c.isupper()` on an ASCII letter. */
  predicate IsUpper(c: char) {
    'A' <= c <= 'Z'
  }

  /** `c.islower()` on an ASCII letter. */
  predicate IsLower(c: char) {
    'a' <= c <= 'z'
  }

  /** `c.upper()` for one character: lower-case ASCII letters move up, everything else stays. */
  function ToUpper(c: char): (u: char)
    ensures !IsLower(u)
    ensures IsLower(c) ==> IsUpper(u) && u as int == c as int - 32
    ensures !IsLower(c) ==> u == c
  {
    if IsLower(c) then (c as int - 32) as char else c
  }

  /** `s[0].upper() + s[1:]` unless `s[0].isupper()`: only the first character may change. */
  function Capitalize(s: string): string {
    if s != [] && !IsUpper(s[0]) then [ToUpper(s[0])] + s[1..] else s
  }

  /** Capitalizing keeps the length and changes at most the first character, to its upper case. */
  lemma {:induction false} CapitalizeSpec(s: string)
    ensures |Capitalize(s)| == |s|
    ensures s != [] ==> Capitalize(s)[0] == ToUpper(s[0]) && Capitalize(s)[1..] == s[1..]
  {
  }

  /** Capitalizing cannot create an occurrence of a pattern that starts with a non-letter. */
  lemma {:induction false} CapitalizeKeepsAbsent(s: string, pat: string)
    requires pat != [] && !IsUpper(pat[0]) && !Contains(s, pat)
    ensures !Contains(Capitalize(s), pat)
  {
  }

  /**
   * The casing rule of `istitle`: an upper-case letter only right after an
   * uncased character, a lower-case letter only right after a cased one.
   */
  predicate TitleCasing(s: string, afterCased: bool)
    decreases |s|
  {
    if s == [] then true
    else if IsUpper(s[0]) then !afterCased && TitleCasing(s[1..], true)
    else if IsLower(s[0]) then afterCased && TitleCasing(s[1..], true)
    else TitleCasing(s[1..], false)
  }

  /** `s.istitle()`: title casing and at least one cased character. */
  predicate IsTitle(s: string) {
    TitleCasing(s, false) && exists i :: 0 <= i < |s| && (IsUpper(s[i]) || IsLower(s[i]))
  }

  /**
   * The combined length of parts when each carries `w` extra characters:
   * `sep.join(parts)` is that long less one separator.
   */
  function Weight(parts: seq<string>, w: nat): nat {
    if parts == [] then 0 else |parts[0]| + w + Weight(parts[1..], w)
  }

  lemma {:induction false} WeightAppend(a: seq<string>, b: seq<string>, w: nat)
    ensures Weight(a + b, w) == Weight(a, w) + Weight(b, w)
    decreases |a|
  {
    if a != [] {
      assert (a + b)[1..] == a[1..] + b;
      WeightAppend(a[1..], b, w);
    } else {
      assert a + b == b;
    }
  }

  lemma {:induction false} JoinLength(parts: seq<string>, sep: string)
    requires parts != []
    ensures |Join(parts, sep)| + |sep| == Weight(parts, |sep|)
    decreases |parts|
  {
    if |parts| > 1 {
      JoinLength(parts[1..], sep);
    }
  }
}
