/** The compact form `to_xml` gives its text: split on '\n', trim every line,
    join with no separator (`split('\n').map(trim).collect().join("")`). */
module Compaction {

  /** The characters with the Unicode White_Space property (PropList.txt),
      listed one by one. */
  const WhiteSpace: set<char> := {
    '\t', '\n', '\U{B}', '\U{C}', '\r', ' ', '\U{85}', '\U{A0}', '\U{1680}',
    '\U{2000}', '\U{2001}', '\U{2002}', '\U{2003}', '\U{2004}', '\U{2005}',
    '\U{2006}', '\U{2007}', '\U{2008}', '\U{2009}', '\U{200A}',
    '\U{2028}', '\U{2029}', '\U{202F}', '\U{205F}', '\U{3000}'
  }

  /** Rust's `char::is_whitespace`, written with the ranges the standard
      library tests. */
  predicate IsWhitespace(c: char)
    ensures IsWhitespace(c) <==> c in WhiteSpace
  {
    '\t' <= c <= '\r' || c == ' ' || c == '\U{85}' || c == '\U{A0}' || c == '\U{1680}'
    || '\U{2000}' <= c <= '\U{200A}' || c == '\U{2028}' || c == '\U{2029}'
    || c == '\U{202F}' || c == '\U{205F}' || c == '\U{3000}'
  }

  predicate AllWhitespace(s: string) {
    forall k :: 0 <= k < |s| ==> IsWhitespace(s[k])
  }

  /** `s` neither starts nor ends with whitespace. */
  predicate Trimmed(s: string) {
    s == [] || (!IsWhitespace(s[0]) && !IsWhitespace(s[|s| - 1]))
  }

  /** The lines joined back with '\n' between consecutive ones. */
  function JoinLines(lines: seq<string>): string
    requires |lines| >= 1
  {
    if |lines| == 1 then lines[0] else lines[0] + "\n" + JoinLines(lines[1..])
  }

  /** `str::split('\n')`: the maximal '\n'-free pieces between the newlines,
      always at least one (the empty string gives one empty line). */
  function Split(s: string): (lines: seq<string>)
    ensures |lines| >= 1
    ensures forall i :: 0 <= i < |lines| ==> '\n' !in lines[i]
    ensures JoinLines(lines) == s
  {
    if s == [] then [""]
    else
      var rest := Split(s[1..]);
      if s[0] == '\n' then
        assert s == "\n" + s[1..];
        [""] + rest
      else
        var lines := [[s[0]] + rest[0]] + rest[1..];
        assert lines[1..] == rest[1..];
        assert s == [s[0]] + s[1..];
        lines
  }

  /** The first index at or after `i` that does not hold whitespace, or
      `|s|`. */
  function SkipWhitespace(s: string, i: nat): (j: nat)
    requires i <= |s|
    ensures i <= j <= |s|
    ensures forall k :: i <= k < j ==> IsWhitespace(s[k])
    ensures j == |s| || !IsWhitespace(s[j])
    decreases |s| - i
  {
    if i < |s| && IsWhitespace(s[i]) then SkipWhitespace(s, i + 1) else i
  }

  /** The end of `s[lo..j]` once its trailing whitespace is dropped. */
  function SkipWhitespaceBack(s: string, lo: nat, j: nat): (e: nat)
    requires lo <= j <= |s|
    ensures lo <= e <= j
    ensures forall k :: e <= k < j ==> IsWhitespace(s[k])
    ensures e == lo || !IsWhitespace(s[e - 1])
    decreases j - lo
  {
    if lo < j && IsWhitespace(s[j - 1]) then SkipWhitespaceBack(s, lo, j - 1) else j
  }

  /** Where `str::trim` cuts: everything before `start` and from `end` on is
      whitespace, and the characters at both ends of what is kept are not. */
  function TrimBounds(s: string): (bounds: (nat, nat))
    ensures bounds.0 <= bounds.1 <= |s|
    ensures forall k :: 0 <= k < bounds.0 ==> IsWhitespace(s[k])
    ensures forall k :: bounds.1 <= k < |s| ==> IsWhitespace(s[k])
    ensures bounds.0 < bounds.1 ==> !IsWhitespace(s[bounds.0]) && !IsWhitespace(s[bounds.1 - 1])
  {
    var start := SkipWhitespace(s, 0);
    (start, SkipWhitespaceBack(s, start, |s|))
  }

  /** `str::trim`: the text between the cuts. */
  function Trim(s: string): (r: string)
    ensures Trimmed(r)
    ensures '\n' !in s ==> '\n' !in r
  {
    var (start, end) := TrimBounds(s);
    assert forall k :: 0 <= k < end - start ==> s[start..end][k] == s[start + k];
    s[start..end]
  }

  /** The trimmed lines joined with no separator. */
  function JoinTrimmed(lines: seq<string>): (r: string)
    ensures Trimmed(r)
    ensures (forall k :: 0 <= k < |lines| ==> '\n' !in lines[k]) ==> '\n' !in r
  {
    if lines == [] then ""
    else
      var head, rest := Trim(lines[0]), JoinTrimmed(lines[1..]);
      TrimmedConcat(head, rest);
      head + rest
  }

  /** The compact form of a text: one line, no whitespace at either end, and
      only whitespace deleted. */
  function Compact(s: string): (r: string)
    ensures '\n' !in r
    ensures Trimmed(r)
    ensures DeletesOnlyWhitespace(r, s)
  {
    JoinTrimmedDeletesOnlyWhitespace(Split(s));
    JoinTrimmed(Split(s))
  }

  /** `o` is `i` with some whitespace characters deleted and nothing else
      changed. */
  predicate DeletesOnlyWhitespace(o: string, i: string)
    decreases |i|
  {
    if i == [] then
      o == []
    else
      || (o != [] && o[0] == i[0] && DeletesOnlyWhitespace(o[1..], i[1..]))
      || (IsWhitespace(i[0]) && DeletesOnlyWhitespace(o, i[1..]))
  }

  /** The non-whitespace characters of `s`, in order. */
  function NonWhitespace(s: string): string
  {
    if s == [] then ""
    else if IsWhitespace(s[0]) then NonWhitespace(s[1..])
    else [s[0]] + NonWhitespace(s[1..])
  }

  lemma {:induction false} DeletesNothing(s: string)
    ensures DeletesOnlyWhitespace(s, s)
  {
    if s != [] {
      DeletesNothing(s[1..]);
    }
  }

  lemma {:induction false} DeletesAll(w: string)
    requires AllWhitespace(w)
    ensures DeletesOnlyWhitespace([], w)
  {
    if w != [] {
      DeletesAll(w[1..]);
    }
  }

  /** Deleting whitespace from two texts deletes whitespace from their
      concatenation. */
  lemma {:induction false} DeletesConcat(o1: string, i1: string, o2: string, i2: string)
    requires DeletesOnlyWhitespace(o1, i1) && DeletesOnlyWhitespace(o2, i2)
    ensures DeletesOnlyWhitespace(o1 + o2, i1 + i2)
    decreases |i1|
  {
    if i1 == [] {
      assert o1 + o2 == o2 && i1 + i2 == i2;
    } else {
      assert (i1 + i2)[0] == i1[0] && (i1 + i2)[1..] == i1[1..] + i2;
      if o1 != [] && o1[0] == i1[0] && DeletesOnlyWhitespace(o1[1..], i1[1..]) {
        DeletesConcat(o1[1..], i1[1..], o2, i2);
        assert (o1 + o2)[1..] == o1[1..] + o2;
      } else {
        DeletesConcat(o1, i1[1..], o2, i2);
      }
    }
  }

  /** Dropping whitespace on both sides of `r` deletes only whitespace. */
  lemma {:induction false} DeletesAround(lead: string, r: string, trail: string)
    requires AllWhitespace(lead) && AllWhitespace(trail)
    ensures DeletesOnlyWhitespace(r, lead + r + trail)
  {
    DeletesAll(lead);
    DeletesAll(trail);
    DeletesNothing(r);
    DeletesConcat([], lead, r, r);
    assert [] + r == r;
    DeletesConcat(r, lead + r, [], trail);
    assert r + [] == r;
  }

  /** Trimming deletes only whitespace. */
  lemma {:induction false} TrimDeletesOnlyWhitespace(s: string)
    ensures DeletesOnlyWhitespace(Trim(s), s)
  {
    var (start, end) := TrimBounds(s);
    var lead, r, trail := s[..start], s[start..end], s[end..];
    assert forall k :: 0 <= k < |lead| ==> lead[k] == s[k];
    assert forall k :: 0 <= k < |trail| ==> trail[k] == s[end + k];
    DeletesAround(lead, r, trail);
    assert lead + r == s[..end];
    assert s[..end] + trail == s;
  }

  lemma {:induction false} JoinTrimmedDeletesOnlyWhitespace(lines: seq<string>)
    requires |lines| >= 1
    ensures DeletesOnlyWhitespace(JoinTrimmed(lines), JoinLines(lines))
  {
    TrimDeletesOnlyWhitespace(lines[0]);
    if |lines| == 1 {
      assert JoinTrimmed(lines) == Trim(lines[0]) + JoinTrimmed(lines[1..]);
      assert lines[1..] == [];
      assert Trim(lines[0]) + [] == Trim(lines[0]);
    } else {
      JoinTrimmedDeletesOnlyWhitespace(lines[1..]);
      assert DeletesOnlyWhitespace([], "\n");
      DeletesConcat(Trim(lines[0]), lines[0], [], "\n");
      assert Trim(lines[0]) + [] == Trim(lines[0]);
      DeletesConcat(Trim(lines[0]), lines[0] + "\n", JoinTrimmed(lines[1..]), JoinLines(lines[1..]));
    }
  }

  /** Compaction deletes only whitespace: every other character of the input
      stays, in order, and nothing is added. */
  lemma {:induction false} CompactDeletesOnlyWhitespace(s: string)
    ensures NonWhitespace(Compact(s)) == NonWhitespace(s)
  {
    DeletionKeepsNonWhitespace(Compact(s), s);
  }

  lemma {:induction false} DeletionKeepsNonWhitespace(o: string, i: string)
    requires DeletesOnlyWhitespace(o, i)
    ensures NonWhitespace(o) == NonWhitespace(i)
    decreases |i|
  {
    if i != [] {
      if o != [] && o[0] == i[0] && DeletesOnlyWhitespace(o[1..], i[1..]) {
        DeletionKeepsNonWhitespace(o[1..], i[1..]);
      } else {
        DeletionKeepsNonWhitespace(o, i[1..]);
      }
    }
  }

  lemma {:induction false} TrimmedConcat(a: string, b: string)
    requires Trimmed(a) && Trimmed(b)
    ensures Trimmed(a + b)
  {
    if a != [] && b != [] {
      assert (a + b)[0] == a[0] && (a + b)[|a + b| - 1] == b[|b| - 1];
    }
  }

  /** A text without '\n' is a single line. */
  lemma {:induction false} SplitSingleLine(t: string)
    requires '\n' !in t
    ensures Split(t) == [t]
  {
    if t != [] {
      SplitSingleLine(t[1..]);
      assert [t[0]] + t[1..] == t;
    }
  }

  /** Trimming a text that is already trimmed changes nothing. */
  lemma {:induction false} TrimTrimmed(t: string)
    requires Trimmed(t)
    ensures Trim(t) == t
  {
    assert SkipWhitespace(t, 0) == 0;
    assert t != [] ==> SkipWhitespaceBack(t, 0, |t|) == |t|;
  }

  lemma {:induction false} JoinTrimmedSingle(l: string)
    ensures JoinTrimmed([l]) == Trim(l)
  {
    var lines := [l];
    assert lines[1..] == [];
    assert JoinTrimmed(lines) == Trim(l) + JoinTrimmed([]);
  }

  /** A trimmed text without line breaks is its own compact form. */
  lemma {:induction false} CompactFixedPoint(t: string)
    requires '\n' !in t && Trimmed(t)
    ensures Compact(t) == t
  {
    CompactSingleLine(t);
    TrimTrimmed(t);
  }

  /** Splitting around a '\n' splits both sides. */
  lemma {:induction false} SplitAtNewline(a: string, b: string)
    ensures Split(a + "\n" + b) == Split(a) + Split(b)
  {
    var s := a + "\n" + b;
    if a == [] {
      assert s == "\n" + b && s[1..] == b;
    } else {
      assert s[0] == a[0] && s[1..] == a[1..] + "\n" + b;
      SplitAtNewline(a[1..], b);
      if a[0] != '\n' {
        var rest := Split(a[1..]);
        assert (rest + Split(b))[1..] == rest[1..] + Split(b);
      }
    }
  }

  lemma {:induction false} JoinTrimmedConcat(x: seq<string>, y: seq<string>)
    ensures JoinTrimmed(x + y) == JoinTrimmed(x) + JoinTrimmed(y)
  {
    if x == [] {
      assert x + y == y;
    } else {
      assert (x + y)[0] == x[0] && (x + y)[1..] == x[1..] + y;
      JoinTrimmedConcat(x[1..], y);
    }
  }

  /** A single line compacts to its trimmed form. */
  lemma {:induction false} CompactSingleLine(t: string)
    requires '\n' !in t
    ensures Compact(t) == Trim(t)
  {
    SplitSingleLine(t);
    JoinTrimmedSingle(t);
  }

  /** Lines compact independently: a '\n' separates two texts whose compact
      forms are joined with nothing between them. */
  lemma {:induction false} CompactAtNewline(a: string, b: string)
    ensures Compact(a + "\n" + b) == Compact(a) + Compact(b)
  {
    SplitAtNewline(a, b);
    JoinTrimmedConcat(Split(a), Split(b));
  }

  /** Compacting twice is compacting once. */
  lemma {:induction false} CompactIdempotent(s: string)
    ensures Compact(Compact(s)) == Compact(s)
  {
    CompactFixedPoint(Compact(s));
  }
}
