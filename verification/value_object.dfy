/**
 Value objects: objects with no identity, equal when they are of the same
 concrete type and list the same equality components in the same order.

 The concrete runtime type is an explicit tag. A component's own hash code
 is the parameter `h`, a function of the component. Hash codes are the
 32 bits of the C# `int`, read as an unsigned number in [0, 2^32); the
 unchecked arithmetic of the source is the explicit `% Modulus` below.
 */
module ValueObjects {
  import opened Optional

  const Seed: int := 1
  const Multiplier: int := 23
  const Modulus: int := 0x1_0000_0000

  /** The bit pattern of a 32-bit hash code. */
  type HashCode = x: int | 0 <= x < 0x1_0000_0000

  datatype ValueObject<T> = ValueObject(typeTag: string, components: seq<T>)

  /**
   Element-wise comparison of two component lists, stopping at the first
   difference or when one list runs out before the other.
   */
  function SequenceEqual<T(==)>(xs: seq<T>, ys: seq<T>): (r: bool)
    ensures r <==> |xs| == |ys| && forall i :: 0 <= i < |xs| ==> xs[i] == ys[i]
  {
    if xs == [] then ys == []
    else if ys == [] then false
    else xs[0] == ys[0] && SequenceEqual(xs[1..], ys[1..])
  }

  /**
   `Equals(object)`: false for null and for another concrete type; otherwise
   the component lists are compared in order.
   */
  function Equals<T(==)>(a: ValueObject<T>, obj: Option<ValueObject<T>>): (r: bool)
    ensures obj.None? ==> !r
    ensures obj.Some? && obj.value.typeTag != a.typeTag ==> !r
    ensures obj.Some? && obj.value.typeTag == a.typeTag ==>
      (r <==> |a.components| == |obj.value.components|
              && forall i :: 0 <= i < |a.components| ==> a.components[i] == obj.value.components[i])
    ensures r <==> obj == Some(a)
  {
    if obj.None? then false
    else if a.typeTag != obj.value.typeTag then false
    else
      var same := SequenceEqual(a.components, obj.value.components);
      assert same ==> a.components == obj.value.components;
      same
  }

  /** One step of the fold: `acc * 23 + hash` with 32-bit wrap-around. */
  function Combine(acc: HashCode, componentHash: HashCode): HashCode {
    (acc * Multiplier + componentHash) % Modulus
  }

  /** A left fold from `acc` combining `acc * 23 + h(c)` for each component `c` in order. */
  function Aggregate<T>(acc: HashCode, cs: seq<T>, h: T -> HashCode): HashCode
    decreases |cs|
  {
    if cs == [] then acc else Aggregate(Combine(acc, h(cs[0])), cs[1..], h)
  }

  /** `GetHashCode()`: the fold over the equality components from seed 1. */
  function GetHashCode<T>(a: ValueObject<T>, h: T -> HashCode): (r: HashCode)
    ensures r == UnboundedFold(Seed, a.components, h) % Modulus
  {
    AggregateIsWrappedFold(Seed, a.components, h);
    Aggregate(Seed, a.components, h)
  }

  /** The same left fold over unbounded integers: no wrap-around anywhere. */
  function UnboundedFold<T>(acc: int, cs: seq<T>, h: T -> HashCode): int
    decreases |cs|
  {
    if cs == [] then acc else UnboundedFold(acc * Multiplier + h(cs[0]), cs[1..], h)
  }

  /**
   `operator ==`: true for two nulls, false for exactly one null, otherwise
   the same reference or `Equals`.
   */
  function EqualOperator<T(==)>(left: Option<ValueObject<T>>, right: Option<ValueObject<T>>): (r: bool)
    ensures left.None? != right.None? ==> !r
    ensures left.None? && right.None? ==> r
    ensures left.Some? && right.Some? ==> (r <==> Equals(left.value, right))
    ensures r <==> left == right
  {
    if left.None? != right.None? then false
    else left == right || Equals(left.value, right)
  }

  /** `operator !=`: the negation of `operator ==` on every pair of operands. */
  function NotEqualOperator<T(==)>(left: Option<ValueObject<T>>, right: Option<ValueObject<T>>): (r: bool)
    ensures r <==> !EqualOperator(left, right)
    ensures r <==> left != right
  {
    !EqualOperator(left, right)
  }

  lemma ModCombine(a: int, x: int)
    ensures ((a % Modulus) * Multiplier + x) % Modulus == (a * Multiplier + x) % Modulus
  {
    var q := a / Modulus;
    var r := a % Modulus;
    assert a == q * Modulus + r;
    assert a * Multiplier + x == (r * Multiplier + x) + (q * Multiplier) * Modulus;
  }

  /**
   Wrapping at every step gives the same hash as folding over unbounded
   integers and wrapping once at the end.
   */
  lemma {:induction false} AggregateIsWrappedFold<T>(a: int, cs: seq<T>, h: T -> HashCode)
    ensures Aggregate(a % Modulus, cs, h) == UnboundedFold(a, cs, h) % Modulus
    decreases |cs|
  {
    if cs != [] {
      var a' := a * Multiplier + h(cs[0]);
      ModCombine(a, h(cs[0]));
      assert Combine(a % Modulus, h(cs[0])) == a' % Modulus;
      AggregateIsWrappedFold(a', cs[1..], h);
    }
  }

  /** No components hash to the seed; two components `[x, y]` to `(23 + h(x)) * 23 + h(y)`. */
  lemma HashOfShortLists<T>(tag: string, x: T, y: T, h: T -> HashCode)
    ensures GetHashCode(ValueObject(tag, []), h) == 1
    ensures GetHashCode(ValueObject(tag, [x, y]), h)
         == ((Seed * Multiplier + h(x)) * Multiplier + h(y)) % Modulus
  {
    assert [x, y][1..] == [y];
    assert [y][1..] == [];
    calc {
      UnboundedFold(Seed, [x, y], h);
      UnboundedFold(Seed * Multiplier + h(x), [y], h);
      UnboundedFold((Seed * Multiplier + h(x)) * Multiplier + h(y), [], h);
    }
  }

  /** Appending a component folds it in last: the fold runs left to right. */
  lemma {:induction false} AggregateSnoc<T>(acc: HashCode, cs: seq<T>, c: T, h: T -> HashCode)
    ensures Aggregate(acc, cs + [c], h) == Combine(Aggregate(acc, cs, h), h(c))
    decreases |cs|
  {
    if cs == [] {
      assert [c][1..] == [];
    } else {
      assert (cs + [c])[1..] == cs[1..] + [c];
      AggregateSnoc(Combine(acc, h(cs[0])), cs[1..], c, h);
    }
  }

  /** Equal value objects have equal hash codes. */
  lemma EqualImpliesEqualHash<T>(a: ValueObject<T>, b: ValueObject<T>, h: T -> HashCode)
    requires Equals(a, Some(b))
    ensures GetHashCode(a, h) == GetHashCode(b, h)
  {
  }

  /**
   Order matters: swapping two different components breaks equality, and
   for integer components hashed to themselves it changes the hash code.
   */
  lemma ReorderingMatters<T>(tag: string, x: T, y: T)
    requires x != y
    ensures !Equals(ValueObject(tag, [x, y]), Some(ValueObject(tag, [y, x])))
    ensures var h := (n: int) => n % Modulus;
      GetHashCode(ValueObject(tag, [0, 1]), h) == 530
      && GetHashCode(ValueObject(tag, [1, 0]), h) == 552
  {
    var h := (n: int) => n % Modulus;
    HashOfShortLists(tag, 0, 1, h);
    HashOfShortLists(tag, 1, 0, h);
  }
}
