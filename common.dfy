/** Small shared vocabulary: an optional value, min/max on numbers, duplicate-free
    sequences, and the conversion of a Python set into a list (whose order the
    language leaves unspecified). */
module Common {

  datatype Option<+T> = None | Some(value: T) {
    function GetOr(default: T): T {
      match this
      case Some(v) => v
      case None => default
    }
  }

  /** The three verdicts a topic can get: "found", "partial", "not found". */
  datatype Status = Found | Partial | NotFound

  /** Orders the verdicts from weakest to strongest. */
  function Rank(s: Status): nat {
    match s
    case NotFound => 0
    case Partial => 1
    case Found => 2
  }

  function MinInt(a: int, b: int): int { if a <= b then a else b }
  function MaxInt(a: int, b: int): int { if a >= b then a else b }
  function MinReal(a: real, b: real): real { if a <= b then a else b }
  function MaxReal(a: real, b: real): real { if a >= b then a else b }

  /** `round(x, 1)`: the nearest multiple of a tenth, halves rounded up. */
  function RoundTenth(x: real): (r: real)
    ensures x - 0.05 < r <= x + 0.05
    ensures (r * 10.0).Floor as real == r * 10.0
  {
    var n := (x * 10.0 + 0.5).Floor;
    assert n as real / 10.0 * 10.0 == n as real;
    n as real / 10.0
  }

  /** Rounding never reorders two values. */
  lemma RoundTenthMonotone(x: real, y: real)
    requires x <= y
    ensures RoundTenth(x) <= RoundTenth(y)
  {
    assert (x * 10.0 + 0.5).Floor <= (y * 10.0 + 0.5).Floor;
  }

  /** A whole number of tenths is left as it is. */
  lemma RoundTenthExact(n: int)
    ensures RoundTenth(n as real / 10.0) == n as real / 10.0
  {
    var y := (n as real / 10.0) * 10.0 + 0.5;
    assert y == n as real + 0.5;
    var f := y.Floor;
    assert f as real <= y < f as real + 1.0;
    assert f == n;
  }

  /** Rounding keeps a value within [0, 100] inside it. */
  lemma RoundTenthInRange(x: real)
    requires 0.0 <= x <= 100.0
    ensures 0.0 <= RoundTenth(x) <= 100.0
  {
    RoundTenthMonotone(0.0, x);
    RoundTenthMonotone(x, 100.0);
    RoundTenthExact(0);
    RoundTenthExact(1000);
  }

  /** No element occurs twice. */
  predicate Distinct<T(==)>(s: seq<T>) {
    forall i, j :: 0 <= i < j < |s| ==> s[i] != s[j]
  }

  /** Appending an element not yet present keeps a sequence duplicate-free. */
  lemma DistinctSnoc<T>(xs: seq<T>, x: T)
    requires Distinct(xs) && x !in xs
    ensures Distinct(xs + [x])
  {
    var ys := xs + [x];
    forall i, j | 0 <= i < j < |ys| ensures ys[i] != ys[j] {
      if j == |xs| {
        assert ys[i] == xs[i];
      }
    }
  }

  /** Splitting off the last element of the right operand of a concatenation. */
  lemma AppendLast<T>(p: seq<T>, b: seq<T>)
    requires b != []
    ensures b == b[..|b| - 1] + [b[|b| - 1]]
    ensures p + b == (p + b[..|b| - 1]) + [b[|b| - 1]]
  {
    assert b == b[..|b| - 1] + [b[|b| - 1]];
  }

  lemma AppendAssoc<T>(x: seq<T>, y: seq<T>, z: seq<T>)
    ensures (x + y) + z == x + (y + z)
  {
  }

  /** `seen` followed by every element of `xs` not already there, once, in the
      order of its first occurrence in `xs`: what appending each `x` of `xs`
      under `if x not in seen` builds. */
  function AppendNew<T(==, !new)>(seen: seq<T>, xs: seq<T>): (r: seq<T>)
    ensures seen <= r
    ensures forall x :: x in r <==> x in seen || x in xs
    ensures Distinct(seen) ==> Distinct(r)
  {
    if xs == [] then seen
    else
      var p, x := AppendNew(seen, xs[..|xs| - 1]), xs[|xs| - 1];
      assert xs == xs[..|xs| - 1] + [x];
      if x in p then p
      else
        assert Distinct(p) ==> Distinct(p + [x]) by {
          if Distinct(p) { DistinctSnoc(p, x); }
        }
        p + [x]
  }

  /** Appending the elements one by one is appending them all at once. */
  lemma AppendNewSnoc<T(!new)>(seen: seq<T>, xs: seq<T>, x: T)
    ensures AppendNew(seen, xs + [x]) == var p := AppendNew(seen, xs); if x in p then p else p + [x]
  {
    assert (xs + [x])[..|xs|] == xs;
  }

  /** `list(s)` for a Python set `s`: every element exactly once, in an order the
      language does not specify (chosen here by `:|`). */
  method SetToSeq<T(==)>(s: set<T>) returns (xs: seq<T>)
    ensures Distinct(xs)
    ensures forall x :: x in xs <==> x in s
    ensures |xs| == |s|
  {
    xs := [];
    var rest := s;
    while rest != {}
      invariant Distinct(xs)
      invariant forall x :: x in xs ==> x in s && x !in rest
      invariant forall x :: x in s ==> x in xs || x in rest
      invariant rest <= s
      invariant |xs| + |rest| == |s|
      decreases rest
    {
      var x :| x in rest;
      xs := xs + [x];
      rest := rest - {x};
    }
  }
}
