/** The parser of the bootstrap seed list: `splitAndTrimEmpty` cuts the
    configured seed string at every separator, trims the cutset code points
    from both ends of each piece and keeps only the pieces left non-empty.
    The start command calls it with separator "," and cutset " ". */
module SeedList {
  import opened GoStrings

  /** Every piece trimmed, in order (the map step). */
  function TrimAll(pieces: seq<string>, cutset: string): (r: seq<string>)
    ensures |r| == |pieces|
    ensures forall k :: 0 <= k < |r| ==> r[k] == Trim(pieces[k], cutset)
  {
    if pieces == [] then [] else [Trim(pieces[0], cutset)] + TrimAll(pieces[1..], cutset)
  }

  /** `xs` is obtained from `ys` by deleting some of its elements. */
  ghost predicate IsSubsequence(xs: seq<string>, ys: seq<string>)
    decreases |ys|
  {
    if xs == [] then true
    else if ys == [] then false
    else (xs[0] == ys[0] && IsSubsequence(xs[1..], ys[1..])) || IsSubsequence(xs, ys[1..])
  }

  /** The elements of `xs` that are not the empty string, in order (the
      filter step; see `DropEmptyKeepsNonEmpty` and `DropEmptyUnique`). */
  function DropEmpty(xs: seq<string>): (r: seq<string>)
    ensures |r| <= |xs|
  {
    if xs == [] then [] else Keep(xs[0]) + DropEmpty(xs[1..])
  }

  /** The one-element contribution of `x` to the filter. */
  function Keep(x: string): (r: seq<string>) {
    if x == [] then [] else [x]
  }

  /** The value `splitAndTrimEmpty` is meant to compute, as a composition:
      split, trim every piece, drop the empty ones. */
  function Spec(s: string, sep: string, cutset: string): (r: seq<string>) {
    DropEmpty(TrimAll(Split(s, sep), cutset))
  }

  /** `splitAndTrimEmpty`: an empty input gives the empty list straight away;
      otherwise the pieces of `Split(s, sep)` are visited by index and each
      trimmed piece that is not empty is appended to the result. */
  method SplitAndTrimEmpty(s: string, sep: string, cutset: string) returns (nonEmptyStrings: seq<string>)
    ensures nonEmptyStrings == Spec(s, sep, cutset)
  {
    if s == [] {
      SpecOfEmpty(sep, cutset);
      return [];
    }
    var spl := Split(s, sep);
    nonEmptyStrings := [];
    var i := 0;
    while i < |spl|
      invariant 0 <= i <= |spl|
      invariant nonEmptyStrings == DropEmpty(TrimAll(spl[..i], cutset))
    {
      var element := Trim(spl[i], cutset);
      if element != [] {
        nonEmptyStrings := nonEmptyStrings + [element];
      }
      TrimAndDropStep(spl, i, cutset);
      i := i + 1;
    }
    assert spl[..i] == spl;
  }

  // Lemmas about the filter

  /** Appending one element to the input appends it to the output unless it is empty. */
  lemma {:induction false} DropEmptyAppend(xs: seq<string>, x: string)
    ensures DropEmpty(xs + [x]) == DropEmpty(xs) + Keep(x)
    decreases |xs|
  {
    if xs == [] {
      assert DropEmpty([x]) == Keep(x) + DropEmpty([]);
    } else {
      var y, t := xs[0], xs[1..];
      assert (xs + [x])[0] == y;
      assert (xs + [x])[1..] == t + [x];
      DropEmptyAppend(t, x);
      calc {
        DropEmpty(xs + [x]);
        Keep(y) + DropEmpty(t + [x]);
        Keep(y) + (DropEmpty(t) + Keep(x));
        (Keep(y) + DropEmpty(t)) + Keep(x);
        DropEmpty(xs) + Keep(x);
      }
    }
  }

  /** Every element kept is non-empty, and every non-empty element is kept as
      many times as it occurs. */
  lemma {:induction false} DropEmptyKeepsNonEmpty(xs: seq<string>)
    ensures forall k :: 0 <= k < |DropEmpty(xs)| ==> DropEmpty(xs)[k] != []
    ensures multiset(DropEmpty(xs)) == multiset(xs)[[] := 0]
    decreases |xs|
  {
    if xs != [] {
      DropEmptyKeepsNonEmpty(xs[1..]);
      assert xs == [xs[0]] + xs[1..];
      assert DropEmpty(xs) == Keep(xs[0]) + DropEmpty(xs[1..]);
    }
  }

  /** One step of the loop: extending the visited prefix by piece `i`. */
  lemma TrimAndDropStep(spl: seq<string>, i: nat, cutset: string)
    requires i < |spl|
    ensures DropEmpty(TrimAll(spl[..i + 1], cutset))
         == DropEmpty(TrimAll(spl[..i], cutset))
            + Keep(Trim(spl[i], cutset))
  {
    assert TrimAll(spl[..i + 1], cutset) == TrimAll(spl[..i], cutset) + [Trim(spl[i], cutset)];
    DropEmptyAppend(TrimAll(spl[..i], cutset), Trim(spl[i], cutset));
  }

  /** The filter keeps the order of what it keeps. */
  lemma {:induction false} DropEmptyIsSubsequence(xs: seq<string>)
    ensures IsSubsequence(DropEmpty(xs), xs)
    decreases |xs|
  {
    if xs != [] {
      DropEmptyIsSubsequence(xs[1..]);
      if xs[0] != [] {
        assert DropEmpty(xs) == [xs[0]] + DropEmpty(xs[1..]);
        assert ([xs[0]] + DropEmpty(xs[1..]))[1..] == DropEmpty(xs[1..]);
      } else {
        assert DropEmpty(xs) == DropEmpty(xs[1..]);
      }
    }
  }

  /** A subsequence has no element more often than the sequence it is taken from. */
  lemma {:induction false} SubsequenceMultiset(xs: seq<string>, ys: seq<string>)
    requires IsSubsequence(xs, ys)
    ensures multiset(xs) <= multiset(ys)
    decreases |ys|
  {
    if xs != [] {
      assert ys == [ys[0]] + ys[1..];
      if xs[0] == ys[0] && IsSubsequence(xs[1..], ys[1..]) {
        SubsequenceMultiset(xs[1..], ys[1..]);
        assert xs == [xs[0]] + xs[1..];
      } else {
        SubsequenceMultiset(xs, ys[1..]);
      }
    }
  }

  /** Removing one non-empty element from both sides keeps the filter's
      multiset relation. */
  lemma MultisetUncons(x: string, r: seq<string>, t: seq<string>)
    requires x != [] && multiset([x] + r) == multiset([x] + t)[[] := 0]
    ensures multiset(r) == multiset(t)[[] := 0]
  {
    forall y ensures multiset(r)[y] == multiset(t)[[] := 0][y] {
      assert multiset([x] + r)[y] == multiset(r)[y] + (if y == x then 1 else 0);
      assert multiset([x] + t)[y] == multiset(t)[y] + (if y == x then 1 else 0);
    }
  }

  /** A leading empty element does not affect the filter's multiset relation. */
  lemma MultisetSkipEmpty(r: seq<string>, t: seq<string>)
    requires multiset(r) == multiset([[]] + t)[[] := 0]
    ensures multiset(r) == multiset(t)[[] := 0]
  {
    forall y ensures multiset(r)[y] == multiset(t)[[] := 0][y] {
      assert multiset([[]] + t)[y] == multiset(t)[y] + (if y == [] then 1 else 0);
    }
  }

  /** The filter is the only order-preserving selection that keeps exactly the
      non-empty elements, each as often as it occurs. */
  lemma {:induction false} DropEmptyUnique(xs: seq<string>, r: seq<string>)
    requires IsSubsequence(r, xs)
    requires forall k :: 0 <= k < |r| ==> r[k] != []
    requires multiset(r) == multiset(xs)[[] := 0]
    ensures r == DropEmpty(xs)
    decreases |xs|
  {
    if xs == [] {
      assert |multiset(r)| == 0;
    } else {
      var x, t := xs[0], xs[1..];
      assert xs == [x] + t;
      if r != [] && r[0] == x && IsSubsequence(r[1..], t) {
        assert r[0] != [];
        assert r == [x] + r[1..];
        MultisetUncons(x, r[1..], t);
        DropEmptyUnique(t, r[1..]);
        assert DropEmpty(xs) == [x] + DropEmpty(t);
      } else {
        assert IsSubsequence(r, t);
        SubsequenceMultiset(r, t);
        if x != [] {
          assert false;
        }
        MultisetSkipEmpty(r, t);
        DropEmptyUnique(t, r);
        assert DropEmpty(xs) == DropEmpty(t);
      }
    }
  }

  // Properties of the seed-list parser

  /** The early return for the empty string agrees with the general path:
      splitting "" gives the one piece "" (or no piece, for the empty separator),
      and nothing survives the filter. */
  lemma SpecOfEmpty(sep: string, cutset: string)
    ensures Spec([], sep, cutset) == []
  {
    if sep != [] {
      assert Split([], sep) == [[]];
    }
  }

  /** Every element of the result is non-empty, does not start or end with a
      cutset code point (so trimming leaves it unchanged) and is the trim of one
      of the pieces of `Split(s, sep)`. */
  lemma SpecElementsTrimmed(s: string, sep: string, cutset: string)
    ensures forall e :: e in Spec(s, sep, cutset) ==> e != [] && e[0] !in cutset && e[|e| - 1] !in cutset
    ensures forall e :: e in Spec(s, sep, cutset) ==> Trim(e, cutset) == e
    ensures forall e :: e in Spec(s, sep, cutset) ==> exists p :: p in Split(s, sep) && Trim(p, cutset) == e
  {
    var pieces := Split(s, sep);
    var trimmed := TrimAll(pieces, cutset);
    var r := DropEmpty(trimmed);
    DropEmptyKeepsNonEmpty(trimmed);
    forall e | e in r
      ensures e != [] && e[0] !in cutset && e[|e| - 1] !in cutset && Trim(e, cutset) == e
      ensures exists p :: p in pieces && Trim(p, cutset) == e
    {
      var j :| 0 <= j < |r| && r[j] == e;
      assert e != [];
      assert multiset(r)[e] > 0;
      assert e in multiset(trimmed);
      var k :| 0 <= k < |trimmed| && trimmed[k] == e;
      assert pieces[k] in pieces;
      TrimCharacterized(pieces[k], cutset);
      TrimFixedPoint(e, cutset);
    }
  }

  /** The result is the trimmed pieces in their original order with exactly the
      empty ones removed: nothing is reordered, added or lost. */
  lemma SpecIsOrderedSelection(s: string, sep: string, cutset: string)
    ensures IsSubsequence(Spec(s, sep, cutset), TrimAll(Split(s, sep), cutset))
    ensures multiset(Spec(s, sep, cutset)) == multiset(TrimAll(Split(s, sep), cutset))[[] := 0]
  {
    DropEmptyIsSubsequence(TrimAll(Split(s, sep), cutset));
    DropEmptyKeepsNonEmpty(TrimAll(Split(s, sep), cutset));
  }

  /** With a non-empty separator there are at most as many results as there
      are occurrences of it plus one (the number of pieces). */
  lemma SpecLength(s: string, sep: string, cutset: string)
    ensures sep != [] ==> |Spec(s, sep, cutset)| <= Count(s, sep) + 1
  {
    if sep != [] {
      SplitLength(s, sep);
    }
  }

  /** With a non-empty separator no element of the result contains it. */
  lemma SpecAvoidsSep(s: string, sep: string, cutset: string)
    requires sep != []
    ensures forall e :: e in Spec(s, sep, cutset) ==> !Contains(e, sep)
  {
    SplitAvoidsSep(s, sep);
    SpecElementsTrimmed(s, sep, cutset);
    forall e | e in Spec(s, sep, cutset) ensures !Contains(e, sep) {
      var p :| p in Split(s, sep) && Trim(p, cutset) == e;
      TrimAvoidsSep(p, sep, cutset);
    }
  }
}

module SeedListExample {
  import opened GoStrings
  import opened SeedList

  /** A one-code-point separator occurs exactly where that code point stands. */
  lemma OccursAtChar(s: string, c: char, k: nat)
    ensures OccursAt(s, [c], k) <==> k < |s| && s[k] == c
  {
    if k < |s| {
      assert s[k..k + 1] == [s[k]];
    }
  }

  /** Splitting on a one-code-point separator cuts just before its first occurrence. */
  lemma SplitAtChar(p: string, c: char, q: string)
    requires c !in p
    ensures Split(p + [c] + q, [c]) == [p] + Split(q, [c])
  {
    var s := p + [c] + q;
    forall k: nat | k < |p| ensures !OccursAt(s, [c], k) {
      OccursAtChar(s, c, k);
      assert s[k] == p[k];
    }
    OccursAtChar(s, c, |p|);
    IndexOfFirst(s, [c], |p|);
    assert s[..|p|] == p;
    assert s[|p| + 1..] == q;
  }

  /** A string without the separator code point is one piece. */
  lemma SplitWithoutChar(p: string, c: char)
    requires c !in p
    ensures Split(p, [c]) == [p]
  {
    forall k: nat ensures !OccursAt(p, [c], k) {
      OccursAtChar(p, c, k);
    }
    assert !Contains(p, [c]);
    IndexFindsFirst(p, [c]);
    SplitWithout(p, [c]);
  }

  lemma SplitBlankEntry(a: string, b: string)
    requires ',' !in a && ',' !in b
    ensures Split(a + ", ," + b, ",") == [a, " ", b]
  {
    var tail := " " + [','] + b;
    assert a + ", ," + b == a + [','] + tail;
    SplitAtChar(a, ',', tail);
    SplitAtChar(" ", ',', b);
    SplitWithoutChar(b, ',');
  }

  /** Two addresses around a blank entry: the blank piece trims to nothing and
      is dropped, the addresses are kept as they are. */
  lemma BlankEntryDropped(a: string, b: string)
    requires a != [] && ',' !in a && a[0] != ' ' && a[|a| - 1] != ' '
    requires b != [] && ',' !in b && b[0] != ' ' && b[|b| - 1] != ' '
    ensures Spec(a + ", ," + b, ",", " ") == [a, b]
  {
    SplitBlankEntry(a, b);
    TrimFixedPoint(a, " ");
    TrimFixedPoint(b, " ");
    TrimUnique(" ", " ", 1, []);
    assert TrimAll([a, " ", b], " ") == [a, [], b];
    assert DropEmpty([a, [], b]) == [a] + DropEmpty([[], b]);
    assert DropEmpty([[], b]) == DropEmpty([b]);
  }

  /** With the arguments of the start command, a seed list holding a blank
      entry parses to exactly its two addresses. */
  lemma BootstrapSeeds()
    ensures Spec("1.2.3.4:26656, ,5.6.7.8:26656", ",", " ") == ["1.2.3.4:26656", "5.6.7.8:26656"]
  {
    var a, b := "1.2.3.4:26656", "5.6.7.8:26656";
    assert "1.2.3.4:26656, ,5.6.7.8:26656" == a + ", ," + b;
    BlankEntryDropped(a, b);
  }
}
