/** The `Flags` bit set of a drawable object (`enum Flags : uint32_t`) and the
    bitwise operators that DEFINE_ENUM_FLAG_OPERATORS declares for it. */
module DrawableObjectFlags {

  /** A 32-bit flag word, as the enum's `uint32_t` underlying type. */
  type Flags = bv32

  const FlagsNone: Flags := 0x0000_0000
  const FlagsSelected: Flags := 0x0000_0001
  const FlagsInitialDefaults: Flags := FlagsSelected

  /** Every bit of `flag` is set in `f`. */
  predicate Has(f: Flags, flag: Flags) {
    f & flag == flag
  }

  /** `operator |`: holds every bit of both operands. */
  function Or(a: Flags, b: Flags): (r: Flags)
    ensures r & a == a && r & b == b
  {
    a | b
  }

  /** `operator &`: holds only bits that both operands hold. */
  function And(a: Flags, b: Flags): (r: Flags)
    ensures a & r == r && b & r == r
  {
    a & b
  }

  /** `operator ~`: the complement; it shares no bit with `f` and covers the rest. */
  function Not(f: Flags): (r: Flags)
    ensures r & f == FlagsNone
    ensures r | f == 0xFFFF_FFFF
  {
    !f
  }

  /** `operator ^`: toggles the bits of `b`; toggling again gives `a` back. */
  function Xor(a: Flags, b: Flags): (r: Flags)
    ensures r ^ b == a
  {
    a ^ b
  }

  /** `a | b` is the least upper bound: any word holding both holds their union. */
  lemma OrIsLeast(a: Flags, b: Flags, c: Flags)
    requires Has(c, a) && Has(c, b)
    ensures Has(c, Or(a, b))
  {
  }

  /** `a & b` is the greatest lower bound: any word within both is within their intersection. */
  lemma AndIsGreatest(a: Flags, b: Flags, c: Flags)
    requires Has(a, c) && Has(b, c)
    ensures Has(And(a, b), c)
  {
  }

  /** The named constants: the initial defaults are exactly "selected", and
      the empty word has no flag. */
  lemma NamedFlags()
    ensures FlagsInitialDefaults == FlagsSelected
    ensures Has(FlagsInitialDefaults, FlagsSelected)
    ensures !Has(FlagsNone, FlagsSelected)
  {
  }

  /** Combining with `|` adds `flag` and keeps every flag already held;
      FlagsNone is its unit, and it is commutative and idempotent. */
  lemma OrCombines(f: Flags, flag: Flags, g: Flags)
    requires Has(f, g)
    ensures Has(Or(f, flag), flag) && Has(Or(f, flag), g)
    ensures Or(f, FlagsNone) == f && Or(FlagsNone, f) == f
    ensures Or(f, flag) == Or(flag, f) && Or(f, f) == f
  {
  }

  /** Clearing with `f & ~flag` removes `flag` and keeps every flag disjoint from it. */
  lemma ClearFlag(f: Flags, flag: Flags, g: Flags)
    requires Has(f, g) && g & flag == FlagsNone
    ensures And(And(f, Not(flag)), flag) == FlagsNone
    ensures Has(And(f, Not(flag)), g)
  {
  }
}
