/**
 * The string operations the dialogs apply to user input and to label texts:
 * Python's `str.strip()`, `str.title()` and `str.split(sep)`, over ASCII.
 * `Normalise` is `s.strip().title()`, the normalisation of names.
 */
module Text {

  // ---------------------------------------------------------------------
  // Character classes

  /** Python's `str.isspace()` on ASCII: tab, line feed, vertical tab,
      form feed, carriage return, the four information separators
      (0x1C to 0x1F) and the space. */
  predicate IsSpace(c: char) {
    var n := c as int;
    n == 0x20 || 0x09 <= n <= 0x0D || 0x1C <= n <= 0x1F
  }

  predicate IsUpper(c: char) { 'A' <= c <= 'Z' }

  predicate IsLower(c: char) { 'a' <= c <= 'z' }

  /** The cased characters of `str.title()`, restricted to ASCII letters. */
  predicate IsLetter(c: char) { IsUpper(c) || IsLower(c) }

  function ToUpper(c: char): (r: char)
    ensures IsLetter(r) == IsLetter(c) && IsSpace(r) == IsSpace(c)
    ensures IsLetter(c) ==> IsUpper(r)
    ensures !IsLetter(c) ==> r == c
  {
    if IsLower(c) then (c as int - 32) as char else c
  }

  function ToLower(c: char): (r: char)
    ensures IsLetter(r) == IsLetter(c) && IsSpace(r) == IsSpace(c)
    ensures IsLetter(c) ==> IsLower(r)
    ensures !IsLetter(c) ==> r == c
  {
    if IsUpper(c) then (c as int + 32) as char else c
  }

  /** Changing the case of a letter never changes which letter it is. */
  lemma CaseRoundTrip(c: char)
    ensures ToLower(ToUpper(c)) == ToLower(c) && ToUpper(ToLower(c)) == ToUpper(c)
    ensures ToUpper(ToUpper(c)) == ToUpper(c) && ToLower(ToLower(c)) == ToLower(c)
  {
  }

  // ---------------------------------------------------------------------
  // str.strip()

  predicate AllSpace(s: string) {
    forall i :: 0 <= i < |s| ==> IsSpace(s[i])
  }

  /** Neither the first nor the last character is whitespace. */
  predicate Trimmed(s: string) {
    s == [] || (!IsSpace(s[0]) && !IsSpace(s[|s| - 1]))
  }

  /** How many whitespace characters run from position `lo` onwards: what
      `lstrip()` removes when `lo` is 0. */
  function SpacesFrom(s: string, lo: nat): (n: nat)
    requires lo <= |s|
    ensures lo + n <= |s|
    ensures forall k :: lo <= k < lo + n ==> IsSpace(s[k])
    ensures lo + n < |s| ==> !IsSpace(s[lo + n])
    decreases |s| - lo
  {
    if lo < |s| && IsSpace(s[lo]) then 1 + SpacesFrom(s, lo + 1) else 0
  }

  /** How many whitespace characters run back from position `hi`, not going
      below `lo`: what `rstrip()` removes from `s[lo..hi]`. */
  function SpacesBefore(s: string, lo: nat, hi: nat): (n: nat)
    requires lo <= hi <= |s|
    ensures n <= hi - lo
    ensures forall k :: hi - n <= k < hi ==> IsSpace(s[k])
    ensures n < hi - lo ==> !IsSpace(s[hi - n - 1])
    decreases hi - lo
  {
    if lo < hi && IsSpace(s[hi - 1]) then 1 + SpacesBefore(s, lo, hi - 1) else 0
  }

  /** `r` is the slice of `s` from `i`, and only whitespace lies around it. */
  predicate SliceBetweenSpace(s: string, r: string, i: int) {
    && 0 <= i <= |s| - |r| && r == s[i..i + |r|]
    && (forall k :: 0 <= k < i ==> IsSpace(s[k]))
    && (forall k :: i + |r| <= k < |s| ==> IsSpace(s[k]))
  }

  /** `s.strip()`: `s` with the whitespace at both ends removed. The result is
      a slice of `s`, it is trimmed, and everything cut off is whitespace. */
  function Strip(s: string): (r: string)
    ensures Trimmed(r)
    ensures exists i :: SliceBetweenSpace(s, r, i)
  {
    var i := SpacesFrom(s, 0);
    var j := |s| - SpacesBefore(s, i, |s|);
    assert SliceBetweenSpace(s, s[i..j], i);
    s[i..j]
  }

  /** Stripping a string that is already trimmed changes nothing. */
  lemma StripTrimmed(s: string)
    requires Trimmed(s)
    ensures Strip(s) == s
  {
  }

  lemma StripIdempotent(s: string)
    ensures Strip(Strip(s)) == Strip(s)
  {
    StripTrimmed(Strip(s));
  }

  /** Stripping leaves nothing exactly when the input is all whitespace. */
  lemma StripEmpty(s: string)
    ensures Strip(s) == [] <==> AllSpace(s)
  {
    var r := Strip(s);
    var i :| SliceBetweenSpace(s, r, i);
  }

  // ---------------------------------------------------------------------
  // str.title()

  /** The loop of `str.title()`: a letter is upper-cased when the character
      before it was not a letter, lower-cased when it was; any other
      character is copied. `previousIsCased` is the state the loop carries. */
  function TitleFrom(s: string, previousIsCased: bool): (r: string)
    ensures |r| == |s|
  {
    if s == [] then []
    else
      var c := s[0];
      [if !IsLetter(c) then c else if previousIsCased then ToLower(c) else ToUpper(c)]
        + TitleFrom(s[1..], IsLetter(c))
  }

  /** `s.title()`. */
  function Title(s: string): (r: string)
    ensures |r| == |s|
  {
    TitleFrom(s, false)
  }

  lemma {:induction false} TitleFromAt(s: string, previousIsCased: bool, i: nat)
    requires i < |s|
    ensures var afterLetter := if i == 0 then previousIsCased else IsLetter(s[i - 1]);
            TitleFrom(s, previousIsCased)[i]
              == if !IsLetter(s[i]) then s[i]
                 else if afterLetter then ToLower(s[i]) else ToUpper(s[i])
  {
    if i > 0 {
      TitleFromAt(s[1..], IsLetter(s[0]), i - 1);
    }
  }

  /** What `Title` does at each position: it keeps every non-letter, keeps
      every letter the same letter, and makes a letter upper case exactly
      when it is the first character or follows a non-letter. */
  lemma TitleAt(s: string, i: nat)
    requires i < |s|
    ensures !IsLetter(s[i]) ==> Title(s)[i] == s[i]
    ensures IsLetter(Title(s)[i]) == IsLetter(s[i])
    ensures IsLetter(s[i]) ==> ToLower(Title(s)[i]) == ToLower(s[i])
    ensures IsLetter(s[i]) ==> (IsUpper(Title(s)[i]) <==> i == 0 || !IsLetter(s[i - 1]))
  {
    TitleFromAt(s, false, i);
    CaseRoundTrip(s[i]);
  }

  /** Title-casing keeps whitespace where it was, so it keeps a string trimmed. */
  lemma TitleKeepsTrimmed(s: string)
    requires Trimmed(s)
    ensures Trimmed(Title(s))
  {
    if s != [] {
      TitleAt(s, 0);
      TitleAt(s, |s| - 1);
    }
  }

  lemma TitleIdempotent(s: string)
    ensures Title(Title(s)) == Title(s)
  {
    var t := Title(s);
    forall i | 0 <= i < |s| ensures Title(t)[i] == t[i] {
      TitleAt(s, i);
      TitleAt(t, i);
      if i > 0 { TitleAt(s, i - 1); }
      CaseRoundTrip(s[i]);
    }
  }

  /** Two strings that differ only in the case of their letters title-case to
      the same string. */
  lemma TitleIgnoresCase(a: string, b: string)
    requires LowerAll(a) == LowerAll(b)
    ensures Title(a) == Title(b)
  {
    assert |a| == |LowerAll(a)|;
    forall i | 0 <= i < |a| ensures Title(a)[i] == Title(b)[i] {
      assert ToLower(a[i]) == LowerAll(a)[i] == LowerAll(b)[i] == ToLower(b[i]);
      TitleAt(a, i);
      TitleAt(b, i);
      if i > 0 { assert ToLower(a[i - 1]) == LowerAll(a)[i - 1] == LowerAll(b)[i - 1]; }
      CaseRoundTrip(a[i]);
      CaseRoundTrip(b[i]);
    }
  }

  // ---------------------------------------------------------------------
  // s.strip().title()

  /** The normalisation the dialogs apply to names: `s.strip().title()`. */
  function Normalise(s: string): string {
    Title(Strip(s))
  }

  /** A normalised name has no whitespace at either end. */
  lemma NormaliseTrimmed(s: string)
    ensures Trimmed(Normalise(s))
  {
    TitleKeepsTrimmed(Strip(s));
  }

  /** Normalising twice is normalising once. */
  lemma NormaliseIdempotent(s: string)
    ensures Normalise(Normalise(s)) == Normalise(s)
  {
    NormaliseTrimmed(s);
    StripTrimmed(Normalise(s));
    TitleIdempotent(Strip(s));
  }

  /** A name normalises to the empty string exactly when it is all whitespace. */
  lemma NormaliseEmpty(s: string)
    ensures Normalise(s) == [] <==> AllSpace(s)
  {
    StripEmpty(s);
  }

  /** ASCII lower-casing of a whole string: how SQLite compares identifiers. */
  function LowerAll(s: string): (r: string)
    ensures |r| == |s|
  {
    seq(|s|, i requires 0 <= i < |s| => ToLower(s[i]))
  }

  /** Title-casing only changes the case of letters. */
  lemma TitleLower(s: string)
    ensures LowerAll(Title(s)) == LowerAll(s)
  {
    forall i | 0 <= i < |s| ensures LowerAll(Title(s))[i] == LowerAll(s)[i] {
      TitleAt(s, i);
    }
  }

  /** Names typed with different letter case normalise to the same name. */
  lemma NormaliseIgnoresCase(a: string, b: string)
    requires LowerAll(Strip(a)) == LowerAll(Strip(b))
    ensures Normalise(a) == Normalise(b)
  {
    TitleIgnoresCase(Strip(a), Strip(b));
  }

  /** Two normalised names that are equal up to case are equal. */
  lemma NormalNamesCaseDistinct(a: string, b: string)
    requires Normalise(a) == a && Normalise(b) == b
    requires LowerAll(a) == LowerAll(b)
    ensures a == b
  {
    NormaliseTrimmed(a);
    NormaliseTrimmed(b);
    StripTrimmed(a);
    StripTrimmed(b);
    TitleIgnoresCase(a, b);
  }

  // ---------------------------------------------------------------------
  // str.split(sep)

  /** `sep` occurs in `s` starting at position `k`. */
  predicate OccursAt(s: string, sep: string, k: int) {
    0 <= k <= |s| - |sep| && s[k..k + |sep|] == sep
  }

  /** `sep in s`. */
  predicate Contains(s: string, sep: string) {
    exists k :: 0 <= k <= |s| - |sep| && OccursAt(s, sep, k)
  }

  /** `s.split(sep)`: the pieces between the occurrences of `sep`, found left
      to right without overlap. */
  function Split(s: string, sep: string): (r: seq<string>)
    requires sep != []
    ensures |r| >= 1
    decreases |s|
  {
    if |s| < |sep| then [s]
    else if s[..|sep|] == sep then [[]] + Split(s[|sep|..], sep)
    else
      var rest := Split(s[1..], sep);
      [[s[0]] + rest[0]] + rest[1..]
  }

  /** `sep.join(pieces)`. */
  function Join(pieces: seq<string>, sep: string): string
    requires |pieces| >= 1
  {
    if |pieces| == 1 then pieces[0] else pieces[0] + sep + Join(pieces[1..], sep)
  }

  /** Joining the pieces back with the separator gives the original text. */
  lemma {:induction false} JoinSplit(s: string, sep: string)
    requires sep != []
    ensures Join(Split(s, sep), sep) == s
    decreases |s|
  {
    if |s| < |sep| {
    } else if s[..|sep|] == sep {
      JoinSplit(s[|sep|..], sep);
      assert s == [] + sep + s[|sep|..];
    } else {
      var rest := Split(s[1..], sep);
      JoinSplit(s[1..], sep);
      if |rest| == 1 {
        assert s == [s[0]] + s[1..];
      } else {
        assert Join(rest, sep) == rest[0] + sep + Join(rest[1..], sep);
        assert rest[1..][1..] == rest[2..];
        assert s == [s[0]] + s[1..];
      }
    }
  }

  /** `s.split(sep)` has one piece exactly when `sep` does not occur in `s`,
      and that piece is then `s` itself. */
  lemma {:induction false} SplitSingle(s: string, sep: string)
    requires sep != []
    ensures |Split(s, sep)| == 1 <==> !Contains(s, sep)
    ensures !Contains(s, sep) ==> Split(s, sep) == [s]
    decreases |s|
  {
    if |s| < |sep| {
    } else if s[..|sep|] == sep {
      assert OccursAt(s, sep, 0);
      assert |Split(s, sep)| == 1 + |Split(s[|sep|..], sep)|;
    } else {
      SplitSingle(s[1..], sep);
      if Contains(s, sep) {
        var k :| 0 <= k <= |s| - |sep| && OccursAt(s, sep, k);
        assert k != 0;
        assert s[1..][k - 1..k - 1 + |sep|] == sep;
        assert OccursAt(s[1..], sep, k - 1);
      } else {
        forall k | OccursAt(s[1..], sep, k) ensures false {
          assert s[1..][k..k + |sep|] == s[k + 1..k + 1 + |sep|];
          assert OccursAt(s, sep, k + 1);
        }
        assert [s[0]] + s[1..] == s;
      }
    }
  }

  /** The first piece of `s.split(sep)` is a prefix of `s`. */
  lemma {:induction false} SplitFirstPrefix(s: string, sep: string)
    requires sep != []
    ensures |Split(s, sep)[0]| <= |s| && s[..|Split(s, sep)[0]|] == Split(s, sep)[0]
    decreases |s|
  {
    if |s| >= |sep| && s[..|sep|] != sep {
      SplitFirstPrefix(s[1..], sep);
      var first := Split(s[1..], sep)[0];
      assert Split(s, sep)[0] == [s[0]] + first;
      assert s[..1 + |first|] == [s[0]] + s[1..][..|first|];
    }
  }

  /** No piece of `s.split(sep)` holds `sep`: each ends where the next
      occurrence, searched from its start, begins. */
  lemma {:induction false} SplitPiecesFree(s: string, sep: string, i: int)
    requires sep != [] && 0 <= i < |Split(s, sep)|
    ensures !Contains(Split(s, sep)[i], sep)
    decreases |s|
  {
    if |s| < |sep| {
    } else if s[..|sep|] == sep {
      if i > 0 {
        SplitPiecesFree(s[|sep|..], sep, i - 1);
      }
    } else {
      var rest := Split(s[1..], sep);
      if i > 0 {
        SplitPiecesFree(s[1..], sep, i);
        assert Split(s, sep)[i] == rest[i];
      } else {
        var p := [s[0]] + rest[0];
        assert Split(s, sep)[0] == p;
        SplitPiecesFree(s[1..], sep, 0);
        SplitFirstPrefix(s[1..], sep);
        forall k | 0 <= k <= |p| - |sep| ensures !OccursAt(p, sep, k) {
          if k == 0 {
            assert p[..|sep|] == s[..|sep|];
          } else {
            assert p[k..k + |sep|] == rest[0][k - 1..k - 1 + |sep|];
            assert !OccursAt(rest[0], sep, k - 1);
          }
        }
      }
    }
  }

  /** The first piece of `s.split(sep)` is all of `s` exactly when `sep`
      does not occur in `s`. */
  lemma SplitFirstIsWhole(s: string, sep: string)
    requires sep != []
    ensures Split(s, sep)[0] == s <==> !Contains(s, sep)
  {
    SplitSingle(s, sep);
    JoinSplit(s, sep);
    var pieces := Split(s, sep);
    if |pieces| > 1 {
      assert |s| == |pieces[0]| + |sep| + |Join(pieces[1..], sep)|;
    }
  }

  /** If `prefix + sep` holds `sep` only at its end, so does the same text
      without the first character. */
  lemma NoEarlyOccurrenceTail(prefix: string, sep: string)
    requires prefix != []
    requires forall k :: 0 <= k < |prefix| ==> !OccursAt(prefix + sep, sep, k)
    ensures forall k :: 0 <= k < |prefix[1..]| ==> !OccursAt(prefix[1..] + sep, sep, k)
  {
    forall k | 0 <= k < |prefix[1..]|
      ensures !OccursAt(prefix[1..] + sep, sep, k)
    {
      assert (prefix[1..] + sep)[k..k + |sep|] == (prefix + sep)[k + 1..k + 1 + |sep|];
      assert !OccursAt(prefix + sep, sep, k + 1);
    }
  }

  /** When `prefix + sep` holds `sep` only at its end, splitting
      `prefix + sep + t` gives `prefix` and then the pieces of `t`. */
  lemma {:induction false} SplitAfterPrefix(prefix: string, sep: string, t: string)
    requires sep != []
    requires forall k :: 0 <= k < |prefix| ==> !OccursAt(prefix + sep, sep, k)
    ensures Split(prefix + sep + t, sep) == [prefix] + Split(t, sep)
    decreases |prefix|
  {
    var s := prefix + sep + t;
    if prefix == [] {
      assert s[..|sep|] == sep && s[|sep|..] == t;
    } else {
      assert s[..|sep|] != sep by {
        assert s[..|sep|] == (prefix + sep)[0..0 + |sep|];
        assert !OccursAt(prefix + sep, sep, 0);
      }
      NoEarlyOccurrenceTail(prefix, sep);
      SplitAfterPrefix(prefix[1..], sep, t);
      assert s[1..] == prefix[1..] + sep + t;
      assert [prefix[0]] + prefix[1..] == prefix;
    }
  }

  /** An occurrence in `a` is an occurrence in `a + b` at the same place. */
  lemma OccursInLeft(a: string, b: string, sep: string, k: int)
    requires OccursAt(a, sep, k)
    ensures OccursAt(a + b, sep, k)
  {
    assert (a + b)[k..k + |sep|] == a[k..k + |sep|];
  }

  /** An occurrence in `b` is an occurrence in `a + b`, shifted by `|a|`. */
  lemma OccursInRight(a: string, b: string, sep: string, k: int)
    requires OccursAt(b, sep, k)
    ensures OccursAt(a + b, sep, |a| + k)
  {
    assert (a + b)[|a| + k..|a| + k + |sep|] == b[k..k + |sep|];
  }

  /** An occurrence of a two-character separator in `a + b` lies in `a`, in
      `b`, or across the join. */
  lemma OccursInConcat(a: string, b: string, sep: string, k: int)
    requires |sep| == 2 && OccursAt(a + b, sep, k)
    ensures || OccursAt(a, sep, k)
            || OccursAt(b, sep, k - |a|)
            || (a != [] && b != [] && a[|a| - 1] == sep[0] && b[0] == sep[1])
  {
    var s := a + b;
    assert s[k] == sep[0] && s[k + 1] == sep[1];
    if k + 2 <= |a| {
      assert a[k..k + 2] == s[k..k + 2];
    } else if k >= |a| {
      assert b[k - |a|..k - |a| + 2] == s[k..k + 2];
    } else {
      assert s[k] == a[|a| - 1] && s[k + 1] == b[0];
    }
  }

  /** The two-character `sep` spans the last character of `a` and the first of `b`. */
  predicate Straddles(a: string, b: string, sep: string) {
    |sep| == 2 && a != [] && b != [] && a[|a| - 1] == sep[0] && b[0] == sep[1]
  }

  /** Every occurrence in `a + b` of a two-character separator lies in `a`,
      in `b`, or across the join. */
  lemma ContainsConcatSplits(a: string, b: string, sep: string)
    requires |sep| == 2 && Contains(a + b, sep)
    ensures Contains(a, sep) || Contains(b, sep) || Straddles(a, b, sep)
  {
    var k :| 0 <= k <= |a + b| - |sep| && OccursAt(a + b, sep, k);
    OccursInConcat(a, b, sep, k);
  }

  /** An occurrence in `a`, in `b` or across the join is one in `a + b`. */
  lemma ContainsConcatJoins(a: string, b: string, sep: string)
    requires |sep| == 2
    requires Contains(a, sep) || Contains(b, sep) || Straddles(a, b, sep)
    ensures Contains(a + b, sep)
  {
    if Contains(a, sep) {
      var k :| 0 <= k <= |a| - |sep| && OccursAt(a, sep, k);
      OccursInLeft(a, b, sep, k);
    } else if Contains(b, sep) {
      var k :| 0 <= k <= |b| - |sep| && OccursAt(b, sep, k);
      OccursInRight(a, b, sep, k);
    } else {
      assert (a + b)[|a| - 1..|a| + 1] == sep;
      assert OccursAt(a + b, sep, |a| - 1);
    }
  }

  /** For a two-character separator, `sep` occurs in `a + b` exactly when it
      occurs in `a`, occurs in `b`, or straddles the join. */
  lemma ContainsConcat(a: string, b: string, sep: string)
    requires |sep| == 2
    ensures Contains(a + b, sep) <==>
              Contains(a, sep) || Contains(b, sep)
              || (a != [] && b != [] && a[|a| - 1] == sep[0] && b[0] == sep[1])
  {
    if Contains(a + b, sep) {
      ContainsConcatSplits(a, b, sep);
    }
    if Contains(a, sep) || Contains(b, sep) || Straddles(a, b, sep) {
      ContainsConcatJoins(a, b, sep);
    }
  }
}
