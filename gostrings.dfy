/** A model of the parts of Go's `strings` package that the seed-list parser
    relies on: `Index`, `Count`, `Split`, `Join`, `TrimLeft`, `TrimRight` and
    `Trim`. A Go string is modelled as a sequence of code points, one `char`
    per code point. */
module GoStrings {

  /** `sep` occurs in `s` starting at position `i`. */
  predicate OccursAt(s: string, sep: string, i: nat) {
    i + |sep| <= |s| && s[i..i + |sep|] == sep
  }

  /** `sep` occurs somewhere in `s` (`strings.Contains`). */
  predicate Contains(s: string, sep: string) {
    exists i: nat :: i <= |s| && OccursAt(s, sep, i)
  }

  /** `strings.Index`: the position of the first occurrence of `sep` in `s`,
      or -1 when there is none (see `IndexFindsFirst`). The empty separator
      occurs at position 0. */
  function Index(s: string, sep: string): (r: int)
    ensures r == -1 || (0 <= r && r + |sep| <= |s|)
    decreases |s|
  {
    if |s| < |sep| then -1
    else if s[..|sep|] == sep then 0
    else
      var m := Index(s[1..], sep);
      if m < 0 then -1 else m + 1
  }

  /** `strings.Count`: the number of non-overlapping occurrences of a non-empty
      `sep` found scanning `s` from left to right; for the empty separator Go
      returns the number of code points plus one. */
  function Count(s: string, sep: string): (r: nat)
    ensures sep != [] ==> r <= |s|
    decreases |s|
  {
    if sep == [] then |s| + 1
    else if |s| < |sep| then 0
    else if s[..|sep|] == sep then 1 + Count(s[|sep|..], sep)
    else Count(s[1..], sep)
  }

  /** One piece per code point: Go's `strings.Split` with an empty separator. */
  function Explode(s: string): (r: seq<string>)
    ensures |r| == |s|
    ensures forall k :: 0 <= k < |r| ==> r[k] == [s[k]]
  {
    if s == [] then [] else [[s[0]]] + Explode(s[1..])
  }

  /** `strings.Split`: for a non-empty `sep`, `s` is cut at the occurrences of
      `sep` found scanning from left to right, giving one piece more than there
      are occurrences; for the empty separator, one piece per code point. */
  function Split(s: string, sep: string): (r: seq<string>)
    ensures sep != [] ==> |r| >= 1
    ensures sep == [] ==> |r| == |s|
    decreases |s|
  {
    if sep == [] then
      Explode(s)
    else
      var m := Index(s, sep);
      if m < 0 then [s] else [s[..m]] + Split(s[m + |sep|..], sep)
  }

  /** `strings.Join`: the pieces with `sep` between consecutive ones. */
  function Join(pieces: seq<string>, sep: string): (r: string) {
    if |pieces| == 0 then []
    else if |pieces| == 1 then pieces[0]
    else pieces[0] + sep + Join(pieces[1..], sep)
  }

  /** `strings.TrimLeft`: drops the longest prefix made only of code points of
      `cutset` (see `TrimLeftCharacterized`). */
  function TrimLeft(s: string, cutset: string): (r: string)
    ensures |r| <= |s|
    decreases |s|
  {
    if s != [] && s[0] in cutset then TrimLeft(s[1..], cutset) else s
  }

  /** `strings.TrimRight`: drops the longest suffix made only of code points of
      `cutset` (see `TrimRightCharacterized`). */
  function TrimRight(s: string, cutset: string): (r: string)
    ensures |r| <= |s|
    decreases |s|
  {
    if s != [] && s[|s| - 1] in cutset then TrimRight(s[..|s| - 1], cutset) else s
  }

  /** `strings.Trim`: drops, from both ends, every code point that is in
      `cutset` (see `TrimCharacterized`). */
  function Trim(s: string, cutset: string): (r: string)
    ensures |r| <= |s|
  {
    TrimRight(TrimLeft(s, cutset), cutset)
  }

  /** `r` is what is left of `s` once the prefix `s[..i]` and a suffix, both
      made only of code points of `cutset`, are removed. */
  predicate CutsetPadded(s: string, cutset: string, i: int, r: string) {
    0 <= i <= |s| - |r| && r == s[i..i + |r|]
    && (forall k :: 0 <= k < i ==> s[k] in cutset)
    && (forall k :: i + |r| <= k < |s| ==> s[k] in cutset)
  }

  // Occurrences of a separator

  /** Shifting an occurrence by one position when the first code point is dropped. */
  lemma OccursAtTail(s: string, sep: string, i: nat)
    requires |s| > 0
    ensures OccursAt(s[1..], sep, i) <==> OccursAt(s, sep, i + 1)
  {
    if i + 1 + |sep| <= |s| {
      assert s[1..][i..i + |sep|] == s[i + 1..i + 1 + |sep|];
    }
  }

  /** `Index` returns the first occurrence, and -1 exactly when there is none. */
  lemma {:induction false} IndexFindsFirst(s: string, sep: string)
    ensures Index(s, sep) >= 0 ==> OccursAt(s, sep, Index(s, sep))
    ensures Index(s, sep) >= 0 ==> forall k: nat :: k < Index(s, sep) ==> !OccursAt(s, sep, k)
    ensures Index(s, sep) == -1 <==> !Contains(s, sep)
    decreases |s|
  {
    if |s| < |sep| {
      assert !Contains(s, sep);
    } else if s[..|sep|] == sep {
      assert OccursAt(s, sep, 0);
    } else {
      assert !OccursAt(s, sep, 0);
      IndexFindsFirst(s[1..], sep);
      var m := Index(s[1..], sep);
      if m < 0 {
        forall i: nat | i <= |s| ensures !OccursAt(s, sep, i) {
          if i > 0 {
            OccursAtTail(s, sep, i - 1);
          }
        }
      } else {
        OccursAtTail(s, sep, m);
        forall k: nat | k < m + 1 ensures !OccursAt(s, sep, k) {
          if k > 0 {
            OccursAtTail(s, sep, k - 1);
          }
        }
      }
    }
  }

  /** `Index` finds exactly the first occurrence. */
  lemma IndexOfFirst(s: string, sep: string, i: nat)
    requires OccursAt(s, sep, i)
    requires forall k: nat :: k < i ==> !OccursAt(s, sep, k)
    ensures Index(s, sep) == i
  {
    IndexFindsFirst(s, sep);
    assert Contains(s, sep);
  }

  /** An occurrence inside the factor `s[i..j]` is an occurrence in `s`. */
  lemma OccursInFactor(s: string, sep: string, i: nat, j: nat, k: nat)
    requires i <= j <= |s|
    requires OccursAt(s[i..j], sep, k)
    ensures OccursAt(s, sep, i + k)
  {
    var f := s[i..j];
    assert f[k..k + |sep|] == sep;
    forall x | 0 <= x < |sep| ensures s[i + k..i + k + |sep|][x] == sep[x] {
      assert f[k..k + |sep|][x] == f[k + x];
    }
  }

  /** A string that does not contain `sep` has no factor that contains it. */
  lemma ContainsFactor(s: string, sep: string, i: nat, j: nat)
    requires i <= j <= |s|
    requires Contains(s[i..j], sep)
    ensures Contains(s, sep)
  {
    var k: nat :| k <= j - i && OccursAt(s[i..j], sep, k);
    OccursInFactor(s, sep, i, j, k);
  }

  /** When there are no occurrences, `Count` is zero. */
  lemma {:induction false} CountNone(s: string, sep: string)
    requires sep != [] && !Contains(s, sep)
    ensures Count(s, sep) == 0
    decreases |s|
  {
    if |s| >= |sep| {
      assert !OccursAt(s, sep, 0);
      assert !Contains(s[1..], sep) by {
        forall k: nat | k <= |s[1..]| ensures !OccursAt(s[1..], sep, k) {
          OccursAtTail(s, sep, k);
        }
      }
      CountNone(s[1..], sep);
    }
  }

  /** The left-to-right count passes over everything before the first
      occurrence and counts that occurrence once. */
  lemma {:induction false} CountFromFirst(s: string, sep: string, m: nat)
    requires sep != [] && OccursAt(s, sep, m)
    requires forall k: nat :: k < m ==> !OccursAt(s, sep, k)
    ensures Count(s, sep) == 1 + Count(s[m + |sep|..], sep)
    decreases m
  {
    if m > 0 {
      assert !OccursAt(s, sep, 0);
      assert Count(s, sep) == Count(s[1..], sep);
      OccursAtTail(s, sep, m - 1);
      forall k: nat | k < m - 1 ensures !OccursAt(s[1..], sep, k) {
        OccursAtTail(s, sep, k);
      }
      CountFromFirst(s[1..], sep, m - 1);
      assert s[1..][m - 1 + |sep|..] == s[m + |sep|..];
    }
  }

  // Properties of Split

  /** One unfolding of `Split` at the first occurrence. */
  lemma SplitAtFirst(s: string, sep: string)
    requires sep != [] && Index(s, sep) >= 0
    ensures Split(s, sep) == [s[..Index(s, sep)]] + Split(s[Index(s, sep) + |sep|..], sep)
  {
  }

  /** A string without an occurrence is a single piece. */
  lemma SplitWithout(s: string, sep: string)
    requires sep != [] && Index(s, sep) < 0
    ensures Split(s, sep) == [s]
  {
  }

  lemma {:induction false} ExplodeJoin(s: string)
    ensures Join(Explode(s), []) == s
    decreases |s|
  {
    if |s| > 1 {
      ExplodeJoin(s[1..]);
      assert Explode(s)[1..] == Explode(s[1..]);
    }
  }

  lemma Reassemble(s: string, m: nat, sep: string)
    requires OccursAt(s, sep, m)
    ensures s == s[..m] + sep + s[m + |sep|..]
  {
    assert s == s[..m] + s[m..m + |sep|] + s[m + |sep|..];
  }

  lemma JoinCons(p: string, tail: seq<string>, sep: string)
    requires |tail| >= 1
    ensures Join([p] + tail, sep) == p + sep + Join(tail, sep)
  {
    assert ([p] + tail)[1..] == tail;
  }

  /** Joining the pieces with the separator gives back the string. */
  lemma SplitJoin(s: string, sep: string)
    ensures Join(Split(s, sep), sep) == s
  {
    if sep == [] {
      ExplodeJoin(s);
    } else {
      SplitJoinNonEmpty(s, sep);
    }
  }

  lemma {:induction false} SplitJoinNonEmpty(s: string, sep: string)
    requires sep != []
    ensures Join(Split(s, sep), sep) == s
    decreases |s|
  {
    var m := Index(s, sep);
    if m >= 0 {
      var rest := s[m + |sep|..];
      IndexFindsFirst(s, sep);
      SplitAtFirst(s, sep);
      SplitJoinNonEmpty(rest, sep);
      JoinCons(s[..m], Split(rest, sep), sep);
      Reassemble(s, m, sep);
    } else {
      SplitWithout(s, sep);
    }
  }

  /** With a non-empty separator, no piece contains the separator. */
  lemma {:induction false} SplitAvoidsSep(s: string, sep: string)
    requires sep != []
    ensures forall p :: p in Split(s, sep) ==> !Contains(p, sep)
    decreases |s|
  {
    var m := Index(s, sep);
    IndexFindsFirst(s, sep);
    if m >= 0 {
      var rest := s[m + |sep|..];
      SplitAtFirst(s, sep);
      SplitAvoidsSep(rest, sep);
      assert !Contains(s[..m], sep) by {
        if Contains(s[..m], sep) {
          var k: nat :| k <= m && OccursAt(s[..m], sep, k);
          OccursInFactor(s, sep, 0, m, k);
          assert false;
        }
      }
    } else {
      SplitWithout(s, sep);
    }
  }

  /** With a non-empty separator, there is one piece more than there are occurrences. */
  lemma {:induction false} SplitLength(s: string, sep: string)
    requires sep != []
    ensures |Split(s, sep)| == Count(s, sep) + 1
    decreases |s|
  {
    var m := Index(s, sep);
    IndexFindsFirst(s, sep);
    if m < 0 {
      SplitWithout(s, sep);
      CountNone(s, sep);
    } else {
      var rest := s[m + |sep|..];
      SplitAtFirst(s, sep);
      CountFromFirst(s, sep, m);
      SplitLength(rest, sep);
    }
  }

  // Properties of Trim

  /** `TrimLeft` leaves a suffix of `s`; what it drops is all cutset code
      points, and what it leaves does not start with one. */
  lemma {:induction false} TrimLeftCharacterized(s: string, cutset: string)
    ensures |TrimLeft(s, cutset)| <= |s|
    ensures TrimLeft(s, cutset) == s[|s| - |TrimLeft(s, cutset)|..]
    ensures forall k :: 0 <= k < |s| - |TrimLeft(s, cutset)| ==> s[k] in cutset
    ensures TrimLeft(s, cutset) != [] ==> TrimLeft(s, cutset)[0] !in cutset
    decreases |s|
  {
    if s != [] && s[0] in cutset {
      TrimLeftCharacterized(s[1..], cutset);
      var r := TrimLeft(s[1..], cutset);
      assert TrimLeft(s, cutset) == r;
      forall k | 1 <= k < |s| - |r| ensures s[k] in cutset {
        assert s[k] == s[1..][k - 1];
      }
    }
  }

  /** `TrimRight` leaves a prefix of `s`; what it drops is all cutset code
      points, and what it leaves does not end with one. */
  lemma {:induction false} TrimRightCharacterized(s: string, cutset: string)
    ensures |TrimRight(s, cutset)| <= |s|
    ensures TrimRight(s, cutset) == s[..|TrimRight(s, cutset)|]
    ensures forall k :: |TrimRight(s, cutset)| <= k < |s| ==> s[k] in cutset
    ensures TrimRight(s, cutset) != [] ==> TrimRight(s, cutset)[|TrimRight(s, cutset)| - 1] !in cutset
    decreases |s|
  {
    if s != [] && s[|s| - 1] in cutset {
      TrimRightCharacterized(s[..|s| - 1], cutset);
      var r := TrimRight(s[..|s| - 1], cutset);
      assert TrimRight(s, cutset) == r;
      forall k | |r| <= k < |s| - 1 ensures s[k] in cutset {
        assert s[k] == s[..|s| - 1][k];
      }
    }
  }

  /** What `Trim` leaves is the factor of `s` that remains once a prefix and a
      suffix made only of cutset code points are removed, and it neither starts
      nor ends with a cutset code point. */
  lemma TrimCharacterized(s: string, cutset: string)
    ensures exists i :: CutsetPadded(s, cutset, i, Trim(s, cutset))
    ensures Trim(s, cutset) != [] ==>
              Trim(s, cutset)[0] !in cutset && Trim(s, cutset)[|Trim(s, cutset)| - 1] !in cutset
  {
    var left := TrimLeft(s, cutset);
    var i := |s| - |left|;
    var r := TrimRight(left, cutset);
    assert Trim(s, cutset) == r;
    TrimLeftCharacterized(s, cutset);
    TrimRightCharacterized(left, cutset);
    assert r == s[i..i + |r|];
    forall k | i + |r| <= k < |s| ensures s[k] in cutset {
      assert s[k] == left[k - i];
    }
    assert CutsetPadded(s, cutset, i, r);
    if r != [] {
      assert r[0] == left[0];
    }
  }

  /** The characterization determines the result: any factor left by removing
      cutset padding that neither starts nor ends with a cutset code point is
      the trim. */
  lemma TrimUnique(s: string, cutset: string, i: int, t: string)
    requires CutsetPadded(s, cutset, i, t)
    requires t != [] ==> t[0] !in cutset && t[|t| - 1] !in cutset
    ensures t == Trim(s, cutset)
  {
    TrimCharacterized(s, cutset);
    var r := Trim(s, cutset);
    var j :| CutsetPadded(s, cutset, j, r);
    if t != [] && r != [] {
      assert s[i] == t[0] && s[j] == r[0];
      assert i == j;
      assert s[i + |t| - 1] == t[|t| - 1] && s[j + |r| - 1] == r[|r| - 1];
      assert |t| == |r|;
    }
  }

  /** Trimming leaves a string unchanged exactly when it does not start or end
      with a cutset code point. */
  lemma TrimFixedPoint(s: string, cutset: string)
    ensures Trim(s, cutset) == s <==> (s == [] || (s[0] !in cutset && s[|s| - 1] !in cutset))
  {
    TrimCharacterized(s, cutset);
    if s != [] && s[0] !in cutset && s[|s| - 1] !in cutset {
      assert TrimLeft(s, cutset) == s;
      assert TrimRight(s, cutset) == s;
    }
  }

  /** Trimming twice is trimming once. */
  lemma TrimIdempotent(s: string, cutset: string)
    ensures Trim(Trim(s, cutset), cutset) == Trim(s, cutset)
  {
    TrimCharacterized(s, cutset);
    TrimFixedPoint(Trim(s, cutset), cutset);
  }

  /** Trimming cannot create an occurrence of a separator. */
  lemma TrimAvoidsSep(s: string, sep: string, cutset: string)
    requires !Contains(s, sep)
    ensures !Contains(Trim(s, cutset), sep)
  {
    TrimCharacterized(s, cutset);
    var r := Trim(s, cutset);
    var i :| CutsetPadded(s, cutset, i, r);
    if Contains(r, sep) {
      ContainsFactor(s, sep, i, i + |r|);
    }
  }
}
