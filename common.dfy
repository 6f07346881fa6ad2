/**
 * Shared vocabulary of both argument engines: optional values, pass/fail
 * outcomes, the caller-owned destinations that a parser writes through, and
 * the linear search (`std::find`) both engines use for choice lists.
 */
module Common {

  datatype Option<T> = None | Some(value: T)

  /** The result of a call that either completes or raises/reports an error. */
  datatype Outcome<E> = Pass | Fail(error: E)

  /** A C++ `int`: 32 bits, two's complement. */
  type Int32 = x: int | -0x8000_0000 <= x <= 0x7fff_ffff

  /**
   * The address of one caller-owned variable. A declared element keeps the
   * address of its destination, as the C++ keeps a pointer.
   */
  type Cell = nat

  /** The content of a destination, one constructor per destination type. */
  datatype Value =
    | VInt(i: Int32)
    | VDouble(d: real)
    | VString(s: string)
    | VOptInt(oi: Option<Int32>)
    | VOptDouble(od: Option<real>)
    | VOptString(os: Option<string>)
    | VStringList(l: seq<string>)
    | VBool(b: bool)

  /** The caller's variables, as a store indexed by address. */
  class Memory {
    var cells: map<Cell, Value>

    constructor (cells: map<Cell, Value>)
      ensures this.cells == cells
    {
      this.cells := cells;
    }
  }

  /** `b` has the same entry at `x` as `a`, or lacks it as `a` does. */
  predicate Untouched(a: map<Cell, Value>, b: map<Cell, Value>, x: Cell)
  {
    (x in a <==> x in b) && (x in a ==> a[x] == b[x])
  }

  /** `b` agrees with `a` outside `outs`. */
  ghost predicate SameOutside(a: map<Cell, Value>, b: map<Cell, Value>, outs: set<Cell>)
  {
    forall x :: x !in outs ==> Untouched(a, b, x)
  }

  /** `b` agrees with `a` everywhere but at `x`. */
  ghost predicate OnlyAt(a: map<Cell, Value>, b: map<Cell, Value>, x: Cell)
  {
    forall y :: y != x ==> Untouched(a, b, y)
  }

  /** A destination written twice holds only the second value. */
  lemma WrittenTwice(m: map<Cell, Value>, x: Cell, a: Value, b: Value)
    ensures m[x := a][x := b] == m[x := b]
  {
  }

  /** `m` holds `v` at `x`. */
  predicate Holds(m: map<Cell, Value>, x: Cell, v: Value)
  {
    x in m && m[x] == v
  }

  /**
   * `std::find` over a vector of strings: the position of the first element
   * equal to `value`, or `|choices|` (the end iterator) when there is none.
   */
  function Find(choices: seq<string>, value: string): (r: nat)
    ensures r <= |choices|
    ensures r < |choices| ==> choices[r] == value
    ensures forall j :: 0 <= j < r ==> choices[j] != value
    ensures r == |choices| <==> value !in choices
  {
    if choices == [] then 0
    else if choices[0] == value then 0
    else 1 + Find(choices[1..], value)
  }
}
