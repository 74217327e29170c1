/** The parts of the Java runtime the recognizer's behaviour depends on: the
    exceptions its code paths can raise, a result type that carries them, and
    the 32-bit `int` with its wrap-around and saturating conversions. */
module Java {

  /** The exceptions the modelled code can end with. */
  datatype Exception =
    | NegativeArraySize   // `new T[n]` with n < 0
    | EndOfFile           // `DataInputStream` read past the end of its bytes
    | NullPointer         // a method called on a null array slot
    | NoSuchElement       // `Collections.max` of an empty collection
    | Arithmetic          // integer division by zero

  /** Either a value or the exception that ended the computation; usable with `:-`. */
  datatype Result<+T> = Ok(value: T) | Err(error: Exception) {
    predicate IsFailure() {
      Err?
    }

    function PropagateFailure<U>(): Result<U>
      requires Err?
    {
      Err(error)
    }

    function Extract(): T
      requires Ok?
    {
      value
    }
  }

  datatype Option<+T> = None | Some(value: T)

  const MinInt: int := -0x8000_0000
  const MaxInt: int := 0x7fff_ffff
  const Modulus: int := 0x1_0000_0000

  predicate InRange(x: int) {
    MinInt <= x <= MaxInt
  }

  /** Two's-complement wrap-around: the `int` that Java arithmetic leaves for the
      mathematical value `x`. */
  function Wrap(x: int): (r: int)
    ensures InRange(r)
    ensures (x - r) % Modulus == 0
    ensures InRange(x) ==> r == x
  {
    var q := (x - MinInt) / Modulus;
    assert x - ((x - MinInt) % Modulus + MinInt) == q * Modulus;
    MultipleOfModulus(q);
    (x - MinInt) % Modulus + MinInt
  }

  /** Narrowing of an integral `double` to `int` (a compound assignment
      `sum += d` with an `int` sum and a `double` d): values beyond the range
      clamp to its ends instead of wrapping. */
  function Saturate(x: int): (r: int)
    ensures InRange(r)
    ensures InRange(x) ==> r == x
    ensures x > MaxInt ==> r == MaxInt
    ensures x < MinInt ==> r == MinInt
  {
    if x < MinInt then MinInt else if x > MaxInt then MaxInt else x
  }

  lemma MultipleOfModulus(q: int)
    ensures (q * Modulus) % Modulus == 0
  {
  }

  /** Wrapping after every addition is the same as wrapping once at the end. */
  lemma WrapAdd(x: int, d: int)
    ensures Wrap(Wrap(x) + d) == Wrap(x + d)
  {
    var y := x + d - MinInt;
    var q := (x - MinInt) / Modulus;
    assert Wrap(x) + d - MinInt == y - q * Modulus;
    ModuloShift(y, q);
  }

  lemma ModuloShift(y: int, q: int)
    ensures (y - q * Modulus) % Modulus == y % Modulus
  {
    var a := y / Modulus;
    var b := y % Modulus;
    assert y - q * Modulus == (a - q) * Modulus + b;
  }
}
