/**
 * The signed accumulator of the magnitude engine (source file
 * arrays.signarray.js): a sign in {-1, 0, 1} next to a magnitude, with a
 * signed add and a signed subtract that overwrite the fields of their first
 * operand.  The model's modInverse keeps its Bezout coefficients in such
 * objects.
 */
module SignArrays {
  import opened Numbers
  import opened Limbs
  import opened Util
  import opened Arithmetic

  class SignArray {
    var sign: int
    var magnitude: seq<Limb>

    constructor (sign: int, magnitude: seq<Limb>)
      ensures this.sign == sign && this.magnitude == magnitude
    {
      this.sign := sign;
      this.magnitude := magnitude;
    }

    /** The signed number the object stands for. */
    function Value(): int
      reads this
    {
      sign * Val(magnitude)
    }

    /** The sign is -1, 0 or 1, the magnitude is normalized, and the sign is 0 exactly for the empty magnitude. */
    predicate Valid()
      reads this
    {
      (sign == -1 || sign == 0 || sign == 1) && Normalized(magnitude) && (sign == 0 <==> |magnitude| == 0)
    }

    /**
     * signAdd: a becomes a + b.  A zero a takes b's sign and a copy of b's
     * magnitude and the call returns b; otherwise it returns a.  Equal signs
     * add the magnitudes; opposite signs subtract the smaller magnitude from
     * the larger and keep the sign of the larger operand.
     */
    static method SignAdd(a: SignArray, b: SignArray) returns (r: SignArray)
      requires a.Valid() && b.Valid()
      modifies a
      ensures a.Valid() && a.Value() == old(a.Value()) + old(b.Value())
      ensures r == if old(a.sign) == 0 then b else a
      ensures old(a.sign) == 0 ==> a.sign == old(b.sign) && a.magnitude == old(b.magnitude)
      ensures old(a.sign) != 0 && old(b.sign) == 0 ==> a.sign == old(a.sign) && a.magnitude == old(a.magnitude)
    {
      if a.sign == 0 {
        a.sign := b.sign;
        var copy := NewCopy(b.magnitude, |b.magnitude|);
        a.magnitude := copy[..];
        assert a.magnitude == old(b.magnitude);
        return b;
      }
      if b.sign == 0 {
        return a;
      }
      if a.sign == b.sign {
        ValPositive(a.magnitude);
        ghost var va, vb := Val(a.magnitude), Val(b.magnitude);
        a.magnitude := Add(a.magnitude, b.magnitude);
        SameSignSum(a.sign, va, vb, Val(a.magnitude));
      } else {
        var abComp := Compare(a.magnitude, b.magnitude);
        if abComp == 0 {
          a.sign := 0;
          a.magnitude := [];
        } else if abComp > 0 {
          a.sign := if abComp == a.sign then 1 else -1;
          a.magnitude := Subtract(a.magnitude, b.magnitude);
        } else {
          a.sign := if abComp == a.sign then 1 else -1;
          a.magnitude := Subtract(b.magnitude, a.magnitude);
        }
      }
      return a;
    }

    /**
     * signSubtract: a becomes a - b.  A zero a takes the negated sign of b
     * and a copy of b's magnitude; opposite signs add the magnitudes; equal
     * signs subtract the smaller magnitude from the larger, the sign telling
     * which was larger.  It always returns a.
     */
    static method SignSubtract(a: SignArray, b: SignArray) returns (r: SignArray)
      requires a.Valid() && b.Valid()
      modifies a
      ensures a.Valid() && a.Value() == old(a.Value()) - old(b.Value())
      ensures r == a
      ensures old(a.sign) == 0 ==> a.sign == -old(b.sign) && a.magnitude == old(b.magnitude)
      ensures old(a.sign) != 0 && old(b.sign) == 0 ==> a.sign == old(a.sign) && a.magnitude == old(a.magnitude)
    {
      if a.sign == 0 {
        a.sign := b.sign * -1;
        var copy := NewCopy(b.magnitude, |b.magnitude|);
        a.magnitude := copy[..];
        assert a.magnitude == old(b.magnitude);
        return a;
      }
      if b.sign == 0 {
        return a;
      }
      if a.sign != b.sign {
        ValPositive(a.magnitude);
        ghost var va, vb := Val(a.magnitude), Val(b.magnitude);
        a.magnitude := Add(a.magnitude, b.magnitude);
        SameSignSum(a.sign, va, vb, Val(a.magnitude));
      } else {
        var abComp := Compare(a.magnitude, b.magnitude);
        if abComp == 0 {
          a.sign := 0;
          a.magnitude := [];
        } else if abComp > 0 {
          a.sign := if abComp == a.sign then 1 else -1;
          a.magnitude := Subtract(a.magnitude, b.magnitude);
        } else {
          a.sign := if abComp == a.sign then 1 else -1;
          a.magnitude := Subtract(b.magnitude, a.magnitude);
        }
      }
      return a;
    }
  }

  /** Magnitudes of the same sign s add: s x + s y = s (x + y). */
  lemma {:induction false} SameSignSum(s: int, x: nat, y: nat, z: nat)
    requires (s == 1 || s == -1) && z == x + y
    ensures s * z == s * x + s * y
  {
  }
}
