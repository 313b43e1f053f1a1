/** Character classes and the few Python string operations the calculator is built on:
    strip, rstrip, membership, split on one character, join and replace, all over ASCII. */
module Text {

  /** Python's str.isspace restricted to ASCII: space, \t \n \v \f \r and the separators 0x1C-0x1F. */
  predicate IsSpace(c: char) {
    c == ' ' || (9 <= c as int <= 13) || (28 <= c as int <= 31)
  }

  predicate AllSpace(s: string) {
    forall i :: 0 <= i < |s| ==> IsSpace(s[i])
  }

  predicate IsDigit(c: char) { '0' <= c <= '9' }

  predicate AllDigits(s: string) {
    forall i :: 0 <= i < |s| ==> IsDigit(s[i])
  }

  predicate IsLetter(c: char) { 'a' <= c <= 'z' || 'A' <= c <= 'Z' }

  /** The regular-expression class \w over ASCII. */
  predicate IsWordChar(c: char) { IsLetter(c) || IsDigit(c) || c == '_' }

  /** Python's str.isidentifier over ASCII (keywords are identifiers too). */
  predicate IsIdentifier(s: string) {
    |s| > 0 && (IsLetter(s[0]) || s[0] == '_') &&
    forall i :: 1 <= i < |s| ==> IsWordChar(s[i])
  }

  /** Neither leading nor trailing whitespace. */
  predicate Trimmed(s: string) {
    s == [] || (!IsSpace(s[0]) && !IsSpace(s[|s| - 1]))
  }

  /** Python's str.lstrip(): the suffix left after the leading whitespace. */
  function TrimStart(s: string): (r: string)
    ensures |r| <= |s| && r == s[|s| - |r|..]
    ensures r == [] || !IsSpace(r[0])
  {
    if s != [] && IsSpace(s[0]) then TrimStart(s[1..]) else s
  }

  /** Python's str.rstrip(): the prefix left before the trailing whitespace. */
  function TrimEnd(s: string): (r: string)
    ensures |r| <= |s| && r == s[..|r|]
    ensures r == [] || !IsSpace(r[|r| - 1])
  {
    if s != [] && IsSpace(s[|s| - 1]) then TrimEnd(s[..|s| - 1]) else s
  }

  /** What lstrip removes is whitespace. */
  lemma {:induction false} TrimStartLead(s: string)
    ensures AllSpace(s[..|s| - |TrimStart(s)|])
  {
    if s != [] && IsSpace(s[0]) {
      TrimStartLead(s[1..]);
      var k := |s| - |TrimStart(s)|;
      assert s[..k] == [s[0]] + s[1..][..k - 1];
    }
  }

  /** The whitespace lstrip removes, in front of what it keeps. */
  lemma LeadingSpace(s: string) returns (lead: string)
    ensures AllSpace(lead) && s == lead + TrimStart(s)
  {
    lead := s[..|s| - |TrimStart(s)|];
    TrimStartLead(s);
  }

  /** What rstrip removes is whitespace. */
  lemma {:induction false} TrimEndTrail(s: string)
    ensures AllSpace(s[|TrimEnd(s)|..])
  {
    if s != [] && IsSpace(s[|s| - 1]) {
      TrimEndTrail(s[..|s| - 1]);
      var k := |TrimEnd(s)|;
      assert s[k..] == s[..|s| - 1][k..] + [s[|s| - 1]];
    }
  }

  /** Python's str.strip(). */
  function Strip(s: string): (r: string)
    ensures Trimmed(r)
    ensures r == [] <==> AllSpace(s)
  {
    var t := TrimStart(s);
    assert AllSpace(t) ==> AllSpace(s) by {
      TrimStartLead(s);
      if AllSpace(t) {
        assert s == s[..|s| - |t|] + t;
      }
    }
    assert TrimEnd(t) == [] ==> AllSpace(t) by {
      TrimEndTrail(t);
      assert t[0..] == t;
    }
    TrimEnd(t)
  }

  lemma {:induction false} TrimStartOfSpaces(a: string, y: string)
    requires AllSpace(a) && (y == [] || !IsSpace(y[0]))
    ensures TrimStart(a + y) == y
  {
    if a == [] {
      assert a + y == y;
    } else {
      assert (a + y)[1..] == a[1..] + y;
      TrimStartOfSpaces(a[1..], y);
    }
  }

  lemma {:induction false} TrimEndOfSpaces(y: string, b: string)
    requires AllSpace(b) && (y == [] || !IsSpace(y[|y| - 1]))
    ensures TrimEnd(y + b) == y
  {
    if b == [] {
      assert y + b == y;
    } else {
      assert (y + b)[..|y + b| - 1] == y + b[..|b| - 1];
      TrimEndOfSpaces(y, b[..|b| - 1]);
    }
  }

  lemma AllSpaceConcat(a: string, b: string)
    requires AllSpace(a) && AllSpace(b)
    ensures AllSpace(a + b)
  {
    forall i | 0 <= i < |a + b| ensures IsSpace((a + b)[i]) {
      if i >= |a| { assert (a + b)[i] == b[i - |a|]; }
    }
  }

  /** Stripping removes exactly the whitespace around an already trimmed text. */
  lemma StripSurrounded(a: string, x: string, b: string)
    requires AllSpace(a) && AllSpace(b) && Trimmed(x)
    ensures Strip(a + x + b) == x
  {
    if x == [] {
      assert a + x + b == (a + b) + [];
      AllSpaceConcat(a, b);
      TrimStartOfSpaces(a + b, []);
    } else {
      assert a + x + b == a + (x + b);
      TrimStartOfSpaces(a, x + b);
      TrimEndOfSpaces(x, b);
    }
  }

  /** Strip(s) is a slice of s with only whitespace on either side of it. */
  lemma StripParts(s: string) returns (i: nat, j: nat)
    ensures i <= j <= |s| && s[i..j] == Strip(s)
    ensures AllSpace(s[..i]) && AllSpace(s[j..])
  {
    var t := TrimStart(s);
    var r := TrimEnd(t);
    TrimStartLead(s);
    TrimEndTrail(t);
    i := |s| - |t|;
    j := i + |r|;
    assert t == s[i..];
    assert s[i..j] == t[..|r|];
    assert s[j..] == t[|r|..];
  }

  lemma Regroup(a: string, s: string, b: string, i: nat, j: nat)
    requires i <= j <= |s|
    ensures a + s + b == (a + s[..i]) + s[i..j] + (s[j..] + b)
  {
    var lead, mid, trail := s[..i], s[i..j], s[j..];
    assert s[i..] == mid + trail;
    assert s == lead + (mid + trail);
    calc {
      a + s + b;
      a + (lead + (mid + trail)) + b;
      (a + lead) + (mid + trail) + b;
      ((a + lead) + mid) + trail + b;
      ((a + lead) + mid) + (trail + b);
    }
  }

  /** Whitespace added around a text does not change what Strip returns. */
  lemma StripIgnoresSurroundingSpace(a: string, s: string, b: string)
    requires AllSpace(a) && AllSpace(b)
    ensures Strip(a + s + b) == Strip(s)
  {
    var i, j := StripParts(s);
    AllSpaceConcat(a, s[..i]);
    AllSpaceConcat(s[j..], b);
    Regroup(a, s, b, i, j);
    StripSurrounded(a + s[..i], s[i..j], s[j..] + b);
  }

  /** Leading whitespace makes no difference to Strip. */
  lemma StripAfterSpace(a: string, s: string)
    requires AllSpace(a)
    ensures Strip(a + s) == Strip(s)
  {
    assert a + s + [] == a + s;
    StripIgnoresSurroundingSpace(a, s, []);
  }

  /** rstrip empties exactly the all-whitespace texts and keeps every other character. */
  lemma TrimEndKeeps(s: string, c: char)
    requires !IsSpace(c)
    ensures TrimEnd(s) == [] <==> AllSpace(s)
    ensures c in s <==> c in TrimEnd(s)
  {
    var r := TrimEnd(s);
    var trail := s[|r|..];
    TrimEndTrail(s);
    assert s == r + trail;
    assert c !in trail;
  }

  /** Python's rstrip followed by strip is strip. */
  lemma StripTrimEnd(s: string)
    ensures Strip(TrimEnd(s)) == Strip(s)
  {
    var r := TrimEnd(s);
    var trail := s[|r|..];
    TrimEndTrail(s);
    assert s == [] + r + trail;
    StripIgnoresSurroundingSpace([], r, trail);
  }

  /** Concatenation regrouped, as a fact of its own so that proofs need not search for it. */
  lemma Reassociate(a: string, b: string, c: string)
    ensures a + b + c == a + (b + c)
  {
  }

  /** rstrip ignores trailing whitespace. */
  lemma StripBeforeSpace(s: string, b: string)
    requires AllSpace(b)
    ensures Strip(s + b) == Strip(s)
  {
    assert [] + s + b == s + b;
    StripIgnoresSurroundingSpace([], s, b);
  }

  /** What follows a separator character. */
  lemma AfterSeparator(a: string, c: char, b: string)
    ensures (a + [c] + b)[|a| + 1..] == b
  {
  }

  /** A slice of a prefix is a slice of the whole. */
  lemma PrefixDrop(s: string, i: nat, k: nat)
    requires i <= k <= |s|
    ensures s[..k][i..] == s[i..k]
  {
  }

  /** A suffix is a slice followed by a shorter suffix. */
  lemma SuffixSplit(s: string, i: nat, j: nat)
    requires i <= j <= |s|
    ensures s[i..] == s[i..j] + s[j..]
  {
  }

  /** A prefix one longer is the prefix and the next character. */
  lemma PrefixSnoc(s: string, k: nat)
    requires k < |s|
    ensures s[..k + 1] == s[..k] + [s[k]]
  {
  }

  /** A prefix split at an inner position. */
  lemma PrefixSplit(s: string, i: nat, j: nat)
    requires i <= j <= |s|
    ensures s[..j] == s[..i] + s[i..j]
  {
  }

  /** The separators the line syntax uses are not whitespace. */
  lemma SeparatorsNotSpace()
    ensures !IsSpace('=') && !IsSpace('#')
  {
  }

  /** Strip removes only whitespace, so it keeps every other character. */
  lemma StripKeeps(s: string, c: char)
    requires !IsSpace(c)
    ensures c in s <==> c in Strip(s)
  {
    var i, j := StripParts(s);
    KeptInside(s, i, j, c);
  }

  lemma KeptInside(s: string, i: nat, j: nat, c: char)
    requires i <= j <= |s| && AllSpace(s[..i]) && AllSpace(s[j..]) && !IsSpace(c)
    ensures c in s <==> c in s[i..j]
  {
    assert s == s[..i] + s[i..j] + s[j..];
    assert c !in s[..i] && c !in s[j..];
  }

  /** lstrip of a text that is not all whitespace stops inside it. */
  lemma {:induction false} TrimStartConcat(a: string, b: string)
    requires !AllSpace(a)
    ensures TrimStart(a + b) == TrimStart(a) + b
  {
    if IsSpace(a[0]) {
      assert (a + b)[1..] == a[1..] + b;
      TrimStartConcat(a[1..], b);
    }
  }

  /** lstrip leaves something of a text that is not all whitespace. */
  lemma TrimStartNonEmpty(a: string)
    requires !AllSpace(a)
    ensures TrimStart(a) != []
  {
    TrimStartLead(a);
    assert a[..|a|] == a;
  }

  /** rstrip keeps the first character when it is not whitespace. */
  lemma TrimEndHead(t: string)
    requires t != [] && !IsSpace(t[0])
    ensures TrimEnd(t) != [] && TrimEnd(t)[0] == t[0]
  {
    TrimEndTrail(t);
    assert t[0..] == t;
  }

  /** The first character Strip keeps is the first non-whitespace character. */
  lemma StripHead(a: string, b: string)
    requires !AllSpace(a)
    ensures Strip(a + b) != [] && Strip(a) != [] && Strip(a + b)[0] == Strip(a)[0]
  {
    TrimStartConcat(a, b);
    TrimStartNonEmpty(a);
    TrimEndHead(TrimStart(a) + b);
    TrimEndHead(TrimStart(a));
  }

  /** Python's s.find(c) once the text before position i holds no c and position i holds c. */
  lemma FirstIndexAt(s: string, c: char, i: nat)
    requires i < |s| && s[i] == c && c !in s[..i]
    ensures FirstIndex(s, c) == i
  {
  }

  /** Index of the first occurrence of c in s, or |s| when there is none. */
  function FirstIndex(s: string, c: char): (i: nat)
    ensures i <= |s| && c !in s[..i]
    ensures i < |s| ==> s[i] == c
    ensures i == |s| <==> c !in s
  {
    if s == [] then 0
    else if s[0] == c then 0
    else
      var k := FirstIndex(s[1..], c);
      assert s[..k + 1] == [s[0]] + s[1..][..k];
      1 + k
  }

  function Occurrences(s: string, c: char): nat {
    if s == [] then 0 else (if s[0] == c then 1 else 0) + Occurrences(s[1..], c)
  }

  lemma {:induction false} OccurrencesConcat(a: string, b: string, c: char)
    ensures Occurrences(a + b, c) == Occurrences(a, c) + Occurrences(b, c)
  {
    if a == [] {
      assert a + b == b;
    } else {
      assert (a + b)[1..] == a[1..] + b;
      OccurrencesConcat(a[1..], b, c);
    }
  }

  lemma {:induction false} OccurrencesAbsent(s: string, c: char)
    requires c !in s
    ensures Occurrences(s, c) == 0
  {
    if s != [] {
      assert s[0] != c;
      assert c !in s[1..];
      OccurrencesAbsent(s[1..], c);
    }
  }

  /** Python's s.split(c): the pieces between the occurrences of c, one more than there are occurrences. */
  function SplitOn(s: string, c: char): (r: seq<string>)
    ensures |r| == Occurrences(s, c) + 1
    ensures forall k :: 0 <= k < |r| ==> c !in r[k]
    decreases |s|
  {
    var i := FirstIndex(s, c);
    if i == |s| then
      OccurrencesAbsent(s, c);
      [s]
    else
      var rest := SplitOn(s[i + 1..], c);
      OccurrencesAfter(s, c, i);
      [s[..i]] + rest
  }

  /** Past the first occurrence of c there is one occurrence fewer. */
  lemma OccurrencesAfter(s: string, c: char, i: nat)
    requires i < |s| && s[i] == c && c !in s[..i]
    ensures Occurrences(s, c) == 1 + Occurrences(s[i + 1..], c)
  {
    assert s == s[..i] + ([c] + s[i + 1..]);
    OccurrencesConcat(s[..i], [c] + s[i + 1..], c);
    OccurrencesAbsent(s[..i], c);
    OccurrencesConcat([c], s[i + 1..], c);
  }

  /** Python's c.join(pieces). */
  function JoinWith(pieces: seq<string>, c: char): string {
    if |pieces| == 0 then ""
    else if |pieces| == 1 then pieces[0]
    else pieces[0] + [c] + JoinWith(pieces[1..], c)
  }

  /** Joining the pieces of a split gives the text back. */
  lemma {:induction false} JoinSplit(s: string, c: char)
    ensures JoinWith(SplitOn(s, c), c) == s
    decreases |s|
  {
    var i := FirstIndex(s, c);
    if i < |s| {
      var rest := SplitOn(s[i + 1..], c);
      JoinSplit(s[i + 1..], c);
      assert SplitOn(s, c) == [s[..i]] + rest;
      JoinCons(s[..i], rest, c);
      assert s == s[..i] + [c] + s[i + 1..];
    }
  }

  lemma JoinCons(head: string, rest: seq<string>, c: char)
    requires |rest| >= 1
    ensures JoinWith([head] + rest, c) == head + [c] + JoinWith(rest, c)
  {
    assert ([head] + rest)[1..] == rest;
  }

  /** Splitting a join of pieces without the separator gives the pieces back. */
  lemma {:induction false} SplitJoin(pieces: seq<string>, c: char)
    requires |pieces| >= 1
    requires forall k :: 0 <= k < |pieces| ==> c !in pieces[k]
    ensures SplitOn(JoinWith(pieces, c), c) == pieces
  {
    if |pieces| > 1 {
      var s := JoinWith(pieces, c);
      var head := pieces[0];
      var tail := JoinWith(pieces[1..], c);
      assert s == head + [c] + tail;
      assert s[|head|] == c;
      assert s[..|head|] == head;
      assert c !in s[..|head|];
      assert FirstIndex(s, c) == |head|;
      assert s[|head| + 1..] == tail;
      SplitJoin(pieces[1..], c);
    } else {
      assert JoinWith(pieces, c) == pieces[0];
    }
  }

  /** Python's s.replace(c, ""). */
  function RemoveAll(s: string, c: char): (r: string)
    ensures c !in r
    ensures |r| + Occurrences(s, c) == |s|
  {
    if s == [] then [] else (if s[0] == c then [] else [s[0]]) + RemoveAll(s[1..], c)
  }

  lemma {:induction false} RemoveAllConcat(a: string, b: string, c: char)
    ensures RemoveAll(a + b, c) == RemoveAll(a, c) + RemoveAll(b, c)
  {
    if a == [] {
      assert a + b == b;
    } else {
      assert (a + b)[1..] == a[1..] + b;
      RemoveAllConcat(a[1..], b, c);
    }
  }
}
