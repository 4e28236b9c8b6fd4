/** `String.split` for a separator of one ordinary character, as the
    deserializer calls it with `":"`.

    Java cuts the string at every separator. If there is none, the result is
    the whole string, even when it is empty. Otherwise trailing empty strings
    are removed, so `"a:b:"` gives two parts and `"::"` gives none.
 */
module JavaSplit {

  /** The position of the first `c` in `s`. */
  function IndexOf(s: string, c: char): (k: nat)
    requires c in s
    ensures k < |s| && s[k] == c
    ensures c !in s[..k]
  {
    if s[0] == c then 0
    else
      assert c in s[1..] by {
        var j :| 0 <= j < |s| && s[j] == c;
        assert s[1..][j - 1] == c;
      }
      var k := IndexOf(s[1..], c);
      assert s[..k + 1] == [s[0]] + s[1..][..k];
      1 + k
  }

  /** The pieces between separators, empty ones included. */
  function Segments(s: string, sep: char): (r: seq<string>)
    ensures |r| >= 1
    ensures forall i :: 0 <= i < |r| ==> sep !in r[i]
    decreases |s|
  {
    if sep !in s then [s]
    else
      var k := IndexOf(s, sep);
      [s[..k]] + Segments(s[k + 1..], sep)
  }

  /** The parts with trailing empty strings removed. */
  function DropTrailingEmpty(parts: seq<string>): (r: seq<string>)
    ensures |r| <= |parts| && r == parts[..|r|]
    ensures |r| > 0 ==> r[|r| - 1] != ""
    ensures forall i :: |r| <= i < |parts| ==> parts[i] == ""
  {
    if |parts| > 0 && parts[|parts| - 1] == "" then DropTrailingEmpty(parts[..|parts| - 1])
    else parts
  }

  /** `s.split(String.valueOf(sep))`. No part holds the separator, and the
      parts joined by it give the string up to its trailing separators; when
      nothing is left, the string was separators only. */
  function Split(s: string, sep: char): (r: seq<string>)
    ensures forall i :: 0 <= i < |r| ==> sep !in r[i]
    ensures sep !in s ==> r == [s]
    ensures sep in s && |r| > 0 ==> r[|r| - 1] != ""
    ensures |r| > 0 ==> |Join(r, sep)| <= |s| && s[..|Join(r, sep)|] == Join(r, sep)
    ensures |r| > 0 ==> forall k :: |Join(r, sep)| <= k < |s| ==> s[k] == sep
    ensures |r| == 0 ==> forall k :: 0 <= k < |s| ==> s[k] == sep
  {
    if sep !in s then [s]
    else
      SplitRebuilds(s, sep);
      DropTrailingEmpty(Segments(s, sep))
  }

  /** Gluing the segments back together with the separator gives the string. */
  function Join(parts: seq<string>, sep: char): string
    requires |parts| >= 1
  {
    if |parts| == 1 then parts[0] else parts[0] + [sep] + Join(parts[1..], sep)
  }

  /** `n` separators. */
  function Separators(sep: char, n: nat): (r: string)
    ensures |r| == n && forall k :: 0 <= k < n ==> r[k] == sep
  {
    seq(n, _ => sep)
  }

  /** Joining parts whose tail from `m` on is empty: the first `m` joined,
      then one separator for each empty part. */
  lemma {:induction false} JoinTrailingEmpty(parts: seq<string>, m: nat, sep: char)
    requires 1 <= m <= |parts|
    requires forall i :: m <= i < |parts| ==> parts[i] == ""
    ensures Join(parts, sep) == Join(parts[..m], sep) + Separators(sep, |parts| - m)
    decreases |parts|
  {
    if m == |parts| {
      assert parts[..m] == parts;
    } else if m == 1 {
      var rest := parts[1..];
      forall i | 0 <= i < |rest| ensures rest[i] == "" {
        assert rest[i] == parts[i + 1];
      }
      JoinEmpty(rest, sep);
      assert parts[..1] == [parts[0]];
    } else {
      var rest := parts[1..];
      forall i | m - 1 <= i < |rest| ensures rest[i] == "" {
        assert rest[i] == parts[i + 1];
      }
      JoinTrailingEmpty(rest, m - 1, sep);
      assert parts[..m][1..] == rest[..m - 1];
    }
  }

  /** Empty parts joined: one separator fewer than there are parts. */
  lemma {:induction false} JoinEmpty(parts: seq<string>, sep: char)
    requires |parts| >= 1
    requires forall i :: 0 <= i < |parts| ==> parts[i] == ""
    ensures Join(parts, sep) == Separators(sep, |parts| - 1)
    decreases |parts|
  {
    if |parts| > 1 {
      var rest := parts[1..];
      forall i | 0 <= i < |rest| ensures rest[i] == "" {
        assert rest[i] == parts[i + 1];
      }
      JoinEmpty(rest, sep);
    }
  }

  /** What `Split` promises when the separator occurs. */
  lemma SplitRebuilds(s: string, sep: char)
    requires sep in s
    ensures var r := DropTrailingEmpty(Segments(s, sep));
            && (|r| > 0 ==> |Join(r, sep)| <= |s| && s[..|Join(r, sep)|] == Join(r, sep))
            && (|r| > 0 ==> forall k :: |Join(r, sep)| <= k < |s| ==> s[k] == sep)
            && (|r| == 0 ==> forall k :: 0 <= k < |s| ==> s[k] == sep)
  {
    var segs := Segments(s, sep);
    var r := DropTrailingEmpty(segs);
    JoinSegments(s, sep);
    if |r| > 0 {
      JoinTrailingEmpty(segs, |r|, sep);
      var j := Join(r, sep);
      assert s == j + Separators(sep, |segs| - |r|);
      assert s[..|j|] == j;
    } else {
      AllEmptySegments(s, sep);
    }
  }

  lemma {:induction false} JoinSegments(s: string, sep: char)
    ensures Join(Segments(s, sep), sep) == s
    decreases |s|
  {
    if sep in s {
      var k := IndexOf(s, sep);
      var rest := Segments(s[k + 1..], sep);
      JoinSegments(s[k + 1..], sep);
      JoinCons(s[..k], rest, sep);
      CutAt(s, k);
    }
  }

  /** Joining a part in front of at least one other. */
  lemma JoinCons(head: string, rest: seq<string>, sep: char)
    requires |rest| >= 1
    ensures Join([head] + rest, sep) == head + [sep] + Join(rest, sep)
  {
    assert ([head] + rest)[1..] == rest;
  }

  /** A string is its prefix, the character at the cut, and its suffix. */
  lemma CutAt(s: string, k: nat)
    requires k < |s|
    ensures s == s[..k] + [s[k]] + s[k + 1..]
  {
  }

  /** Two separator-free parts, the second not empty, split back apart. */
  lemma SplitPair(a: string, b: string, sep: char)
    requires sep !in a && sep !in b && b != ""
    ensures Split(a + [sep] + b, sep) == [a, b]
  {
    var s := a + [sep] + b;
    assert s[|a|] == sep;
    var k := IndexOf(s, sep);
    assert k == |a|;
    assert s[..k] == a;
    assert s[k + 1..] == b;
    assert Segments(b, sep) == [b];
    assert Segments(s, sep) == [a, b];
  }

  /** Separator-only text splits into empty segments. */
  lemma {:induction false} AllEmptySegments(t: string, sep: char)
    requires forall i :: 0 <= i < |Segments(t, sep)| ==> Segments(t, sep)[i] == ""
    ensures forall j :: 0 <= j < |t| ==> t[j] == sep
    decreases |t|
  {
    if sep !in t {
      assert Segments(t, sep) == [t];
      assert Segments(t, sep)[0] == t;
    } else {
      var k := IndexOf(t, sep);
      assert Segments(t, sep)[0] == t[..k];
      assert k == 0;
      var rest := t[1..];
      assert Segments(t, sep) == [""] + Segments(rest, sep);
      assert forall i :: 0 <= i < |Segments(rest, sep)| ==> Segments(rest, sep)[i] == Segments(t, sep)[i + 1];
      AllEmptySegments(rest, sep);
      forall j | 0 <= j < |t| ensures t[j] == sep {
        if j > 0 {
          assert t[j] == rest[j - 1];
        }
      }
    }
  }

  /** A two-part split comes only from `a`, the separator, a non-empty `b`,
      and then nothing but separators. */
  lemma SplitPairShape(s: string, a: string, b: string, sep: char)
    requires Split(s, sep) == [a, b]
    ensures sep !in a && sep !in b && b != ""
    ensures |a| + 1 + |b| <= |s|
    ensures s[..|a|] == a && s[|a|] == sep && s[|a| + 1..|a| + 1 + |b|] == b
    ensures forall j :: |a| + 1 + |b| <= j < |s| ==> s[j] == sep
  {
    SplitTwoParts(s, a, b, sep);
    var segs := Segments(s, sep);
    var k := IndexOf(s, sep);
    var s1 := s[k + 1..];
    var segs1 := Segments(s1, sep);
    SegmentsAt(s, k, sep);
    assert segs == [s[..k]] + segs1;
    assert a == s[..k] && b == segs1[0];
    EmptyAfter(segs, s[..k], segs1, 2);
    SegmentThenSeparators(s1, b, sep);
    CutAt(s, k);
    SeparatorsAfter(s, a, b, s1, sep);
  }

  /** Text whose segments after the first are all empty is that segment
      followed by separators only. */
  lemma SegmentThenSeparators(t: string, b: string, sep: char)
    requires Segments(t, sep)[0] == b
    requires forall i :: 1 <= i < |Segments(t, sep)| ==> Segments(t, sep)[i] == ""
    ensures |b| <= |t| && t[..|b|] == b
    ensures forall j :: |b| <= j < |t| ==> t[j] == sep
  {
    if sep in t {
      var k := IndexOf(t, sep);
      var rest := t[k + 1..];
      var segs := Segments(rest, sep);
      SegmentsAt(t, k, sep);
      EmptyAfter(Segments(t, sep), t[..k], segs, 1);
      AllEmptySegments(rest, sep);
      forall j | |b| <= j < |t| ensures t[j] == sep {
        if j > k {
          assert t[j] == rest[j - k - 1];
        }
      }
    }
  }

  /** Parts that are empty from index `n` on stay so once the first is
      removed. */
  lemma EmptyAfter(parts: seq<string>, head: string, rest: seq<string>, n: nat)
    requires n >= 1 && parts == [head] + rest
    requires forall i :: n <= i < |parts| ==> parts[i] == ""
    ensures forall i :: n - 1 <= i < |rest| ==> rest[i] == ""
  {
    forall i | n - 1 <= i < |rest| ensures rest[i] == "" {
      assert rest[i] == parts[i + 1];
    }
  }

  /** `a`, the separator, then `b` followed by separators only. */
  lemma SeparatorsAfter(s: string, a: string, b: string, t: string, sep: char)
    requires s == a + [sep] + t
    requires |b| <= |t| && t[..|b|] == b
    requires forall j :: |b| <= j < |t| ==> t[j] == sep
    ensures |a| + 1 + |b| <= |s|
    ensures s[..|a|] == a && s[|a|] == sep && s[|a| + 1..|a| + 1 + |b|] == b
    ensures forall j :: |a| + 1 + |b| <= j < |s| ==> s[j] == sep
  {
    forall j | |a| + 1 + |b| <= j < |s| ensures s[j] == sep {
      assert s[j] == t[j - |a| - 1];
    }
  }

  /** A two-part split keeps the first two segments, the second not empty,
      and drops only empty ones after them. */
  lemma SplitTwoParts(s: string, a: string, b: string, sep: char)
    requires Split(s, sep) == [a, b]
    ensures sep in s
    ensures |Segments(s, sep)| >= 2 && Segments(s, sep)[0] == a && Segments(s, sep)[1] == b && b != ""
    ensures forall i :: 2 <= i < |Segments(s, sep)| ==> Segments(s, sep)[i] == ""
  {
    assert sep in s;
    var segs := Segments(s, sep);
    assert segs[..2] == [a, b];
  }

  /** Java gives `[""]` for the empty string. */
  lemma SplitEmpty()
    ensures Split("", ':') == [""]
  {
  }

  /** A trailing separator is dropped together with its empty segment. */
  lemma SplitTrailingSeparator()
    ensures Split("a:b:", ':') == ["a", "b"]
  {
    assert IndexOf("a:b:", ':') == 1 && "a:b:"[..1] == "a" && "a:b:"[2..] == "b:";
    assert IndexOf("b:", ':') == 1 && "b:"[..1] == "b" && "b:"[2..] == "";
    assert Segments("", ':') == [""];
    assert Segments("b:", ':') == ["b", ""];
    assert Segments("a:b:", ':') == ["a", "b", ""];
  }

  /** Separators alone leave nothing at all. */
  lemma SplitOnlySeparators()
    ensures Split("::", ':') == []
  {
    var s := "::";
    SegmentsAt(s, 0, sep := ':');
    var t := s[1..];
    assert t == ":";
    SegmentsAt(t, 0, sep := ':');
    assert t[1..] == "";
    var segs := Segments(s, ':');
    assert segs == ["", "", ""];
    DropAllEmpty(segs);
  }

  /** Nothing is left of parts that are all empty. */
  lemma DropAllEmpty(parts: seq<string>)
    requires forall i :: 0 <= i < |parts| ==> parts[i] == ""
    ensures DropTrailingEmpty(parts) == []
  {
  }

  /** An empty segment in the middle is kept. */
  lemma SplitInnerEmpty()
    ensures Split("a::b", ':') == ["a", "", "b"]
  {
    var s := "a::b";
    assert s[..1] == "a";
    SegmentsAt(s, 1, sep := ':');
    var t := s[2..];
    assert t == ":b";
    SegmentsAt(t, 0, sep := ':');
    assert t[1..] == "b";
    assert Segments(s, ':') == ["a", "", "b"];
  }

  /** Trailing separators are dropped with their empty segments. */
  lemma SplitTrailingSeparators()
    ensures Split("abc::", ':') == ["abc"]
  {
    var s := "abc::";
    assert s[..3] == "abc";
    SegmentsAt(s, 3, sep := ':');
    var t := s[4..];
    assert t == ":";
    SegmentsAt(t, 0, sep := ':');
    assert t[1..] == "";
    assert Segments(s, ':') == ["abc", "", ""];
    KeepFirst(["abc", "", ""]);
  }

  /** A non-empty first part followed by empty ones is all that is kept. */
  lemma KeepFirst(parts: seq<string>)
    requires |parts| >= 1 && parts[0] != ""
    requires forall i :: 1 <= i < |parts| ==> parts[i] == ""
    ensures DropTrailingEmpty(parts) == parts[..1]
  {
  }

  /** The segments of a string whose first separator is at `k`. */
  lemma SegmentsAt(s: string, k: nat, sep: char)
    requires k < |s| && s[k] == sep && sep !in s[..k]
    ensures Segments(s, sep) == [s[..k]] + Segments(s[k + 1..], sep)
  {
    var i := IndexOf(s, sep);
    forall j | 0 <= j < k ensures s[j] != sep {
      assert s[j] == s[..k][j];
    }
    forall j | 0 <= j < i ensures s[j] != sep {
      assert s[j] == s[..i][j];
    }
    assert i == k;
  }
}
