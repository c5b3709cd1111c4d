// The parts of Rust's slice API that the solutions share: `chunks` and the
// concatenation that undoes it.

module Slices {

  /** The pieces one after another. */
  function Concat<T>(pieces: seq<seq<T>>): seq<T> {
    if pieces == [] then [] else Concat(pieces[..|pieces| - 1]) + pieces[|pieces| - 1]
  }

  lemma {:induction false} ConcatFront<T>(p: seq<T>, rest: seq<seq<T>>)
    ensures Concat([p] + rest) == p + Concat(rest)
  {
    var all := [p] + rest;
    if rest == [] {
      assert all[..|all| - 1] == [];
    } else {
      assert all[..|all| - 1] == [p] + rest[..|rest| - 1];
      ConcatFront(p, rest[..|rest| - 1]);
    }
  }

  /** `slice::chunks(w)`: consecutive pieces of `w` elements, the last one
      possibly shorter, none empty. */
  function Chunks<T>(s: seq<T>, w: nat): (r: seq<seq<T>>)
    requires w > 0
    ensures forall k :: 0 <= k < |r| ==> 0 < |r[k]| <= w
    ensures forall k :: 0 <= k < |r| - 1 ==> |r[k]| == w
    decreases |s|
  {
    if s == [] then []
    else if |s| <= w then [s]
    else [s[..w]] + Chunks(s[w..], w)
  }

  /** Element `i` of chunk `k` is element `k * w + i` of the whole. */
  lemma {:induction false} ChunksAt<T>(s: seq<T>, w: nat, k: nat, i: nat)
    requires w > 0 && k < |Chunks(s, w)| && i < |Chunks(s, w)[k]|
    ensures k * w + i < |s| && Chunks(s, w)[k][i] == s[k * w + i]
    decreases |s|
  {
    if k == 0 {
      assert k * w == 0;
    } else {
      var rest := s[w..];
      assert Chunks(s, w) == [s[..w]] + Chunks(rest, w);
      assert Chunks(s, w)[k] == Chunks(rest, w)[k - 1];
      ChunksAt(rest, w, k - 1, i);
      var before := (k - 1) * w;
      assert k * w == before + w;
      assert rest[before + i] == s[w + before + i];
    }
  }

  lemma {:induction false} ConcatChunks<T>(s: seq<T>, w: nat)
    requires w > 0
    ensures Concat(Chunks(s, w)) == s
    decreases |s|
  {
    if |s| > w {
      ConcatChunks(s[w..], w);
      ConcatFront(s[..w], Chunks(s[w..], w));
    } else if s != [] {
      assert Concat([s]) == Concat([s][..0]) + s;
    }
  }

  /** Cutting `w * h` elements into pieces of `w` gives `h` full rows. */
  lemma {:induction false} ChunksExact<T>(s: seq<T>, w: nat, h: nat)
    requires w > 0 && |s| == w * h
    ensures |Chunks(s, w)| == h
    ensures forall k :: 0 <= k < h ==> |Chunks(s, w)[k]| == w
    decreases h
  {
    if h > 1 {
      assert |s[w..]| == w * (h - 1);
      ChunksExact(s[w..], w, h - 1);
    }
  }
}
