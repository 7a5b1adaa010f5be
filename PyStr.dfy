/** The parts of Python's `str` that the note generator relies on:
    `split(sep)`, `sep.join(parts)`, `strip()`, `strip(chars)` and slicing.
    Strings are sequences of Unicode scalar values, as Python's are of code points. */
module PyStr {
  import opened Wrappers

  /** `c.isspace()`: the ASCII controls tab to carriage return, the separators
      0x1C to 0x1F, space, and the Unicode space and line separators. */
  predicate IsSpace(c: char)
  {
    '\t' <= c <= '\r' || '\U{1C}' <= c <= ' ' || c == '\U{85}' || c == '\U{A0}'
    || c == '\U{1680}' || '\U{2000}' <= c <= '\U{200A}' || c == '\U{2028}'
    || c == '\U{2029}' || c == '\U{202F}' || c == '\U{205F}' || c == '\U{3000}'
  }

  /** The characters `strip()` without an argument removes. */
  const Whitespace: set<char> := set c: char | '\t' <= c <= '\U{3000}' && IsSpace(c)

  /** `s.lstrip(chars)`: drops the longest prefix made of `chars`. */
  function TrimLeft(s: string, chars: set<char>): (r: string)
    ensures |r| <= |s| && r == s[|s| - |r|..]
    ensures forall i :: 0 <= i < |s| - |r| ==> s[i] in chars
    ensures r == [] || r[0] !in chars
    decreases |s|
  {
    if s != [] && s[0] in chars then TrimLeft(s[1..], chars) else s
  }

  /** `s.rstrip(chars)`: drops the longest suffix made of `chars`. */
  function TrimRight(s: string, chars: set<char>): (r: string)
    ensures |r| <= |s| && r == s[..|r|]
    ensures forall i :: |r| <= i < |s| ==> s[i] in chars
    ensures r == [] || r[|r| - 1] !in chars
    decreases |s|
  {
    if s != [] && s[|s| - 1] in chars then TrimRight(s[..|s| - 1], chars) else s
  }

  /** `s.strip(chars)`: neither end of the result is in `chars`; `StripSlice`
      says where the result sits in `s`. */
  function Strip(s: string, chars: set<char>): (r: string)
    ensures r == [] || (r[0] !in chars && r[|r| - 1] !in chars)
  {
    TrimRight(TrimLeft(s, chars), chars)
  }

  /** `strip` keeps a slice of `s` starting at `a`, and removes only characters of
      `chars`, before and after it. */
  lemma StripSlice(s: string, chars: set<char>) returns (a: nat)
    ensures var r := Strip(s, chars);
            a + |r| <= |s| && r == s[a..a + |r|]
            && (forall i :: 0 <= i < a ==> s[i] in chars)
            && (forall i :: a + |r| <= i < |s| ==> s[i] in chars)
  {
    var l := TrimLeft(s, chars);
    var r := TrimRight(l, chars);
    a := |s| - |l|;
    assert r == s[a..a + |r|];
    forall i | a + |r| <= i < |s| ensures s[i] in chars {
      assert s[i] == l[i - a];
    }
  }

  /** `sep` occurs in `s` at index `i`. */
  predicate Occurs(s: string, sep: string, i: nat)
  {
    i + |sep| <= |s| && s[i..i + |sep|] == sep
  }

  /** Python's `sep in s`. */
  ghost predicate Contains(s: string, sep: string)
  {
    exists i: nat :: Occurs(s, sep, i)
  }

  /** `s.find(sep, from)`: the first occurrence of `sep` at or after `from`. */
  function IndexFrom(s: string, sep: string, from: nat): (r: Option<nat>)
    requires |sep| > 0
    ensures r.Some? ==> from <= r.value && Occurs(s, sep, r.value)
                        && forall j :: from <= j < r.value ==> !Occurs(s, sep, j)
    ensures r.None? ==> forall j: nat :: from <= j ==> !Occurs(s, sep, j)
    decreases |s| - from
  {
    if from + |sep| > |s| then None
    else if Occurs(s, sep, from) then Some(from)
    else IndexFrom(s, sep, from + 1)
  }

  /** `s.split(sep)`: the pieces between non-overlapping occurrences of `sep`,
      found from left to right; there is always at least one piece. */
  function Split(s: string, sep: string): (parts: seq<string>)
    requires |sep| > 0
    ensures |parts| >= 1
    decreases |s|
  {
    match IndexFrom(s, sep, 0)
    case None => [s]
    case Some(i) => [s[..i]] + Split(s[i + |sep|..], sep)
  }

  /** `sep.join(parts)`. */
  function Join(sep: string, parts: seq<string>): string
  {
    if |parts| == 0 then ""
    else if |parts| == 1 then parts[0]
    else parts[0] + sep + Join(sep, parts[1..])
  }

  /** `s[i:j]` for non-negative bounds: both bounds are clamped to the length. */
  function Slice(s: string, i: nat, j: nat): (r: string)
    ensures |r| <= |s|
  {
    var lo := if i <= |s| then i else |s|;
    var hi := if j <= lo then lo else if j <= |s| then j else |s|;
    s[lo..hi]
  }

  /** `s.count(c)` for a single character. */
  function Count(s: string, c: char): nat
  {
    multiset(s)[c]
  }

  /** Joining the pieces of a split with the same separator gives back the string. */
  lemma {:induction false} JoinSplit(s: string, sep: string)
    requires |sep| > 0
    ensures Join(sep, Split(s, sep)) == s
    decreases |s|
  {
    match IndexFrom(s, sep, 0)
    case None =>
    case Some(i) =>
      var rest := s[i + |sep|..];
      var parts := Split(rest, sep);
      JoinSplit(rest, sep);
      assert Split(s, sep) == [s[..i]] + parts;
      assert ([s[..i]] + parts)[1..] == parts;
      assert Join(sep, Split(s, sep)) == s[..i] + sep + rest;
      assert s == s[..i] + sep + rest by {
        assert s[i..i + |sep|] == sep;
      }
  }

  /** A one-character separator occurs exactly where that character stands. */
  lemma OccursChar(s: string, c: char, i: nat)
    ensures Occurs(s, [c], i) <==> i < |s| && s[i] == c
  {
    if i < |s| {
      assert s[i..i + 1] == [s[i]];
    }
  }

  /** A string without the separator character splits into itself. */
  lemma SplitWithoutChar(s: string, c: char)
    requires c !in s
    ensures Split(s, [c]) == [s]
  {
    match IndexFrom(s, [c], 0)
    case None =>
    case Some(i) =>
      OccursChar(s, c, i);
      assert false;
  }

  /** Splitting on one character gives one piece more than the character's count. */
  lemma {:induction false} SplitCount(s: string, c: char)
    ensures |Split(s, [c])| == Count(s, c) + 1
    decreases |s|
  {
    match IndexFrom(s, [c], 0)
    case None =>
      forall j | 0 <= j < |s| ensures s[j] != c {
        OccursChar(s, c, j);
      }
      assert c !in multiset(s);
    case Some(i) =>
      OccursChar(s, c, i);
      forall j | 0 <= j < i ensures s[j] != c {
        OccursChar(s, c, j);
      }
      assert c !in s[..i];
      assert c !in multiset(s[..i]);
      var rest := s[i + 1..];
      assert s == s[..i] + [c] + rest;
      assert multiset(s) == multiset(s[..i]) + multiset{c} + multiset(rest);
      SplitCount(rest, c);
  }

  /** Splitting the join of pieces free of the separator character recovers the pieces. */
  lemma {:induction false} SplitJoin(parts: seq<string>, c: char)
    requires |parts| >= 1
    requires forall k :: 0 <= k < |parts| ==> c !in parts[k]
    ensures Split(Join([c], parts), [c]) == parts
    decreases |parts|
  {
    if |parts| == 1 {
      SplitWithoutChar(parts[0], c);
    } else {
      var p := parts[0];
      var rest := Join([c], parts[1..]);
      var s := p + [c] + rest;
      assert Join([c], parts) == s;
      match IndexFrom(s, [c], 0)
      case None =>
        OccursChar(s, c, |p|);
        assert false;
      case Some(i) =>
        OccursChar(s, c, i);
        OccursChar(s, c, |p|);
        assert i == |p|;
        assert s[..i] == p;
        assert s[i + 1..] == rest;
        SplitJoin(parts[1..], c);
        assert parts == [p] + parts[1..];
    }
  }

  /** The first piece of a split is the text before the first separator. */
  lemma SplitFirst(s: string, sep: string)
    requires |sep| > 0
    ensures var head := Split(s, sep)[0];
            |head| <= |s| && head == s[..|head|]
            && (forall j: nat :: j <= |head| - |sep| ==> !Occurs(head, sep, j))
            && (head == s || Occurs(s, sep, |head|))
  {
    var head := Split(s, sep)[0];
    match IndexFrom(s, sep, 0)
    case None =>
      forall j: nat | j <= |head| - |sep| ensures !Occurs(head, sep, j) {
        assert !Occurs(s, sep, j);
      }
    case Some(i) =>
      assert head == s[..i];
      forall j: nat | j <= |head| - |sep| ensures !Occurs(head, sep, j) {
        assert !Occurs(s, sep, j);
      }
  }

  /** A prefix made only of stripped characters does not change what `lstrip` keeps. */
  lemma {:induction false} TrimLeftPrefix(p: string, s: string, chars: set<char>)
    requires forall i :: 0 <= i < |p| ==> p[i] in chars
    ensures TrimLeft(p + s, chars) == TrimLeft(s, chars)
    decreases |p|
  {
    if p != [] {
      assert (p + s)[1..] == p[1..] + s;
      TrimLeftPrefix(p[1..], s, chars);
    } else {
      assert p + s == s;
    }
  }

  /** A suffix made only of stripped characters does not change what `rstrip` keeps. */
  lemma {:induction false} TrimRightSuffix(s: string, p: string, chars: set<char>)
    requires forall i :: 0 <= i < |p| ==> p[i] in chars
    ensures TrimRight(s + p, chars) == TrimRight(s, chars)
    decreases |p|
  {
    if p != [] {
      assert (s + p)[..|s + p| - 1] == s + p[..|p| - 1];
      TrimRightSuffix(s, p[..|p| - 1], chars);
    } else {
      assert s + p == s;
    }
  }

  /** Stripping other characters does not change how often `c` occurs. */
  lemma StripCount(s: string, chars: set<char>, c: char)
    requires c !in chars
    ensures Count(Strip(s, chars), c) == Count(s, c)
  {
    TrimLeftCount(s, chars, c);
    TrimRightCount(TrimLeft(s, chars), chars, c);
  }

  lemma TrimLeftCount(s: string, chars: set<char>, c: char)
    requires c !in chars
    ensures Count(TrimLeft(s, chars), c) == Count(s, c)
  {
    var left := TrimLeft(s, chars);
    DroppedCount(s[..|s| - |left|], left, chars, c);
    assert s == s[..|s| - |left|] + left;
  }

  lemma TrimRightCount(s: string, chars: set<char>, c: char)
    requires c !in chars
    ensures Count(TrimRight(s, chars), c) == Count(s, c)
  {
    var r := TrimRight(s, chars);
    DroppedCount(s[|r|..], r, chars, c);
    assert s == r + s[|r|..];
  }

  lemma DroppedCount(dropped: string, kept: string, chars: set<char>, c: char)
    requires c !in chars
    requires forall i :: 0 <= i < |dropped| ==> dropped[i] in chars
    ensures Count(dropped + kept, c) == Count(kept, c) == Count(kept + dropped, c)
  {
    assert c !in dropped;
    assert multiset(dropped)[c] == 0;
  }

  /** `lstrip` keeps a string that does not start with a stripped character. */
  lemma TrimLeftStop(s: string, chars: set<char>)
    requires s == [] || s[0] !in chars
    ensures TrimLeft(s, chars) == s
  {
  }

  /** `rstrip` keeps a string that does not end with a stripped character. */
  lemma TrimRightStop(s: string, chars: set<char>)
    requires s == [] || s[|s| - 1] !in chars
    ensures TrimRight(s, chars) == s
  {
  }

  /** `strip` removes a leading run of stripped characters from a string whose ends
      are kept. */
  lemma StripFramed(lead: string, b: string, chars: set<char>)
    requires forall i :: 0 <= i < |lead| ==> lead[i] in chars
    requires b != [] && b[0] !in chars && b[|b| - 1] !in chars
    ensures Strip(lead + b, chars) == b
  {
    TrimLeftPrefix(lead, b, chars);
    TrimLeftStop(b, chars);
    TrimRightStop(b, chars);
  }

  /** `strip` of a string made only of stripped characters is empty. */
  lemma {:induction false} StripAll(p: string, chars: set<char>)
    requires forall i :: 0 <= i < |p| ==> p[i] in chars
    ensures Strip(p, chars) == []
  {
    TrimLeftPrefix(p, [], chars);
    assert p + [] == p;
  }
}
