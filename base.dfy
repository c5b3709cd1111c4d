// Shared value types: Rust's Option, a panic outcome, and std::cmp::Ordering.

module Base {

  /** Rust's `Option<T>`. */
  datatype Option<T> = None | Some(value: T)

  /** The result of a Rust expression that may panic (`unwrap` on `None`, a
      failed `assert!`, an out-of-range slice or index). A panic aborts the
      whole computation, so it carries no value. */
  datatype Outcome<T> = Ok(value: T) | Panic

  /** `xs.iter().map(f).collect()` where `f` may panic: every result, in
      order, or a panic as soon as one element panics. */
  function AllOk<T, U>(xs: seq<T>, f: T -> Outcome<U>): (r: Outcome<seq<U>>)
    ensures r.Ok? <==> forall k :: 0 <= k < |xs| ==> f(xs[k]).Ok?
    ensures r.Ok? ==> |r.value| == |xs| && forall k :: 0 <= k < |xs| ==> r.value[k] == f(xs[k]).value
  {
    if xs == [] then Ok([])
    else
      var rest := AllOk(xs[1..], f);
      assert forall k :: 0 <= k < |xs[1..]| ==> xs[1..][k] == xs[k + 1];
      match (f(xs[0]), rest)
      case (Ok(y), Ok(ys)) => Ok([y] + ys)
      case _ => Panic
  }

  /** `std::cmp::Ordering`. */
  datatype Ordering = Less | Equal | Greater {
    /** `Ordering::then`: keep this ordering unless it is `Equal`. */
    function Then(other: Ordering): Ordering {
      if this == Equal then other else this
    }
    function Reverse(): Ordering {
      match this
      case Less => Greater
      case Equal => Equal
      case Greater => Less
    }
  }

  /** `Ord::cmp` on integers. */
  function CompareInt(a: int, b: int): Ordering {
    if a < b then Less else if a == b then Equal else Greater
  }

  function Abs(x: int): nat {
    if x < 0 then -x else x
  }

  function Min(a: int, b: int): int {
    if a <= b then a else b
  }

  function Max(a: int, b: int): int {
    if a >= b then a else b
  }

  /** No element occurs twice. */
  ghost predicate NoDuplicates<T>(s: seq<T>) {
    forall i, j :: 0 <= i < j < |s| ==> s[i] != s[j]
  }

  /** Sum of a sequence of naturals (`Iterator::sum`). */
  function Sum(s: seq<nat>): nat {
    if s == [] then 0 else Sum(s[..|s| - 1]) + s[|s| - 1]
  }

  /** Product of a sequence of naturals (`Iterator::product`). */
  function Product(s: seq<nat>): nat {
    if s == [] then 1 else Product(s[..|s| - 1]) * s[|s| - 1]
  }

  lemma {:induction false} SumAppend(s: seq<nat>, t: seq<nat>)
    ensures Sum(s + t) == Sum(s) + Sum(t)
  {
    if t != [] {
      assert (s + t)[..|s + t| - 1] == s + t[..|t| - 1];
      SumAppend(s, t[..|t| - 1]);
    } else {
      assert s + t == s;
    }
  }

  /** A sum of 0s and 1s counts the positions holding 1. */
  lemma {:induction false} SumOfFlags(s: seq<nat>)
    requires forall k :: 0 <= k < |s| ==> s[k] <= 1
    ensures Sum(s) == |set k | 0 <= k < |s| && s[k] == 1|
  {
    if s != [] {
      var n := |s| - 1;
      var front := s[..n];
      SumOfFlags(front);
      var before := set k | 0 <= k < |front| && front[k] == 1;
      var all := set k | 0 <= k < |s| && s[k] == 1;
      assert forall k :: k in all <==> k in before || (k == n && s[n] == 1);
      if s[n] == 1 {
        assert n !in before;
        assert all == before + {n};
      } else {
        assert all == before;
      }
    }
  }

  /** Outcomes, one per element of `xs`, that are all Ok with a score of
      at most 1 add up to the number of them that are Ok(1). */
  lemma CountOfOnes<T>(xs: seq<T>, outcomes: seq<Outcome<nat>>, scores: seq<nat>)
    requires |outcomes| == |scores| == |xs|
    requires forall k :: 0 <= k < |xs| ==> outcomes[k] == Ok(scores[k]) && scores[k] <= 1
    ensures Sum(scores) == |set k | 0 <= k < |xs| && outcomes[k] == Ok(1)|
  {
    SumOfFlags(scores);
    assert (set k | 0 <= k < |scores| && scores[k] == 1) == (set k | 0 <= k < |xs| && outcomes[k] == Ok(1));
  }

  /** Termwise smaller terms give a smaller sum. */
  lemma {:induction false} SumMonotone(s: seq<nat>, t: seq<nat>)
    requires |s| == |t| && forall k :: 0 <= k < |s| ==> s[k] <= t[k]
    ensures Sum(s) <= Sum(t)
  {
    if s != [] {
      SumMonotone(s[..|s| - 1], t[..|t| - 1]);
    }
  }

  /** A sum of `|s|` terms, none above `b`, is at most `|s| * b`. */
  lemma {:induction false} SumAtMost(s: seq<nat>, b: nat)
    requires forall k :: 0 <= k < |s| ==> s[k] <= b
    ensures Sum(s) <= |s| * b
  {
    if s != [] {
      var front := s[..|s| - 1];
      SumAtMost(front, b);
      assert (|s| - 1) * b + b == |s| * b;
    }
  }

  /** Adding an element of `u` not yet in `s` leaves fewer of `u` outside:
      the measure of the visited-set searches. */
  lemma VisitShrinks<T>(u: set<T>, s: set<T>, x: T)
    requires x in u && x !in s
    ensures |u - (s + {x})| < |u - s|
  {
    assert u - (s + {x}) == (u - s) - {x};
  }
}
