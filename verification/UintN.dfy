/**
 * The identifier type: five machine widths and a big integer. The other modules compute with
 * plain numbers; here it is shown that this is what the six variants do, as long as every
 * machine-width value is in its narrowest variant.
 */
module UintNs {
  import opened Outcomes
  import opened Bytes
  import opened WalCodec
  import opened Selection

  type u8 = v: nat | v < U8_LIMIT
  type u16 = v: nat | v < U16_LIMIT
  type u32 = v: nat | v < U32_LIMIT
  type u64 = v: nat | v < U64_LIMIT
  type u128 = v: nat | v < U128_LIMIT

  datatype Error = ValueTooLarge | DecrementUnderflow | SliceTooShort | InvalidUintNSize

  /** Variants in order of width; 5 stands for the big integer. */
  type Rank = r: nat | r <= 5
  type MachineRank = r: nat | r <= 4

  function Limit(r: MachineRank): nat {
    match r
    case 0 => U8_LIMIT
    case 1 => U16_LIMIT
    case 2 => U32_LIMIT
    case 3 => U64_LIMIT
    case _ => U128_LIMIT
  }

  datatype UintN = U8(n8: u8) | U16(n16: u16) | U32(n32: u32) | U64(n64: u64) | U128(n128: u128) | Big(big: nat) {
    function Value(): nat {
      match this
      case U8(v) => v
      case U16(v) => v
      case U32(v) => v
      case U64(v) => v
      case U128(v) => v
      case Big(v) => v
    }

    function Rank(): Rank {
      match this
      case U8(_) => 0
      case U16(_) => 1
      case U32(_) => 2
      case U64(_) => 3
      case U128(_) => 4
      case Big(_) => 5
    }

    predicate IsZero() {
      Value() == 0
    }

    /** A machine-width value that would not fit a narrower variant. */
    predicate Minimal() {
      Big? || this == From(Value())
    }

    /** Minimal, and big only beyond the machine widths: the one form of its value. */
    predicate Canonical() {
      this == From(Value())
    }

    function ToU128(): Result<u128, Error> {
      if Value() < U128_LIMIT then Ok(Value()) else Err(Error.ValueTooLarge)
    }

    function SizeInBytes(): nat {
      match this
      case U8(_) => 1
      case U16(_) => 2
      case U32(_) => 4
      case U64(_) => 8
      case U128(_) => 16
      case Big(v) => ByteLength(v)
    }
  }

  /** The variant of a given width. */
  function OfRank(r: MachineRank, v: nat): (x: UintN)
    requires v < Limit(r)
    ensures x.Value() == v && x.Rank() == r
  {
    match r
    case 0 => U8(v)
    case 1 => U16(v)
    case 2 => U32(v)
    case 3 => U64(v)
    case _ => U128(v)
  }

  /** The narrowest variant that holds a number. */
  function From(v: nat): (x: UintN)
    ensures x.Value() == v
    ensures x.Rank() > 0 ==> Limit(x.Rank() - 1) <= v
    ensures x.Rank() < 5 ==> v < Limit(x.Rank())
  {
    if v < U8_LIMIT then U8(v)
    else if v < U16_LIMIT then U16(v)
    else if v < U32_LIMIT then U32(v)
    else if v < U64_LIMIT then U64(v)
    else if v < U128_LIMIT then U128(v)
    else Big(v)
  }

  /** Minimal means: too large for every narrower variant. */
  lemma MinimalExactly(x: UintN)
    ensures x.Minimal() <==> x.Big? || x.Rank() == 0 || Limit(x.Rank() - 1) <= x.Value()
  {
  }

  // ----- Machine operations -----

  /** A cast to a machine width keeps the low-order bits. */
  function Cast(v: nat, r: MachineRank): (c: nat)
    ensures c < Limit(r)
  {
    v % Limit(r)
  }

  lemma CastKeeps(v: nat, r: MachineRank)
    requires v < Limit(r)
    ensures Cast(v, r) == v
  {
  }

  function CheckedAdd(a: nat, b: nat, r: MachineRank): Option<nat> {
    if a + b < Limit(r) then Some(a + b) else None
  }

  /** Subtraction at a machine width wraps around. */
  function WrappingSub(a: nat, b: nat, r: MachineRank): (d: nat)
    ensures d < Limit(r)
  {
    (a - b) % Limit(r)
  }

  lemma WrappingSubKeeps(a: nat, b: nat, r: MachineRank)
    requires b <= a < Limit(r)
    ensures WrappingSub(a, b, r) == a - b
  {
  }

  lemma LimitsGrow(r: MachineRank, q: MachineRank)
    requires r <= q
    ensures Limit(r) <= Limit(q) && (r < q ==> Limit(r) + Limit(r) <= Limit(q))
  {
  }

  function Wider(x: UintN, y: UintN): (r: Rank)
    ensures x.Rank() <= r && y.Rank() <= r
  {
    if x.Rank() < y.Rank() then y.Rank() else x.Rank()
  }

  lemma BelowLimit(x: UintN)
    requires !x.Big?
    ensures x.Value() < Limit(x.Rank())
  {
  }

  /** Two machine values are unchanged when cast to the wider of their widths. */
  lemma CastToWider(x: UintN, y: UintN)
    requires !x.Big? && !y.Big?
    ensures var r := Wider(x, y); Cast(x.Value(), r) == x.Value() && Cast(y.Value(), r) == y.Value()
  {
    hide Limit, Cast;
    var r := Wider(x, y);
    BelowLimit(x);
    BelowLimit(y);
    LimitsGrow(x.Rank(), r);
    LimitsGrow(y.Rank(), r);
    CastKeeps(x.Value(), r);
    CastKeeps(y.Value(), r);
  }

  // ----- Comparison -----

  /** Pair by pair: the narrower value is cast to the wider width; with a big one in play both must fit 128 bits or both be big. */
  predicate Equal(x: UintN, y: UintN) {
    match (x, y)
    case (U8(a), U8(b)) => a == b
    case (U8(a), U16(b)) => Cast(a, 1) == b
    case (U8(a), U32(b)) => Cast(a, 2) == b
    case (U8(a), U64(b)) => Cast(a, 3) == b
    case (U8(a), U128(b)) => Cast(a, 4) == b
    case (U16(a), U8(b)) => a == Cast(b, 1)
    case (U16(a), U16(b)) => a == b
    case (U16(a), U32(b)) => Cast(a, 2) == b
    case (U16(a), U64(b)) => Cast(a, 3) == b
    case (U16(a), U128(b)) => Cast(a, 4) == b
    case (U32(a), U8(b)) => a == Cast(b, 2)
    case (U32(a), U16(b)) => a == Cast(b, 2)
    case (U32(a), U32(b)) => a == b
    case (U32(a), U64(b)) => Cast(a, 3) == b
    case (U32(a), U128(b)) => Cast(a, 4) == b
    case (U64(a), U8(b)) => a == Cast(b, 3)
    case (U64(a), U16(b)) => a == Cast(b, 3)
    case (U64(a), U32(b)) => a == Cast(b, 3)
    case (U64(a), U64(b)) => a == b
    case (U64(a), U128(b)) => Cast(a, 4) == b
    case (U128(a), U8(b)) => a == Cast(b, 4)
    case (U128(a), U16(b)) => a == Cast(b, 4)
    case (U128(a), U32(b)) => a == Cast(b, 4)
    case (U128(a), U64(b)) => a == Cast(b, 4)
    case (U128(a), U128(b)) => a == b
    case (Big(a), Big(b)) => a == b
    case _ =>
      match y.ToU128()
      case Err(_) => false
      case Ok(b) =>
        match x.ToU128()
        case Err(_) => false
        case Ok(a) => a == b
  }

  predicate Less(x: UintN, y: UintN) {
    match (x, y)
    case (U8(a), U8(b)) => a < b
    case (U8(a), U16(b)) => Cast(a, 1) < b
    case (U8(a), U32(b)) => Cast(a, 2) < b
    case (U8(a), U64(b)) => Cast(a, 3) < b
    case (U8(a), U128(b)) => Cast(a, 4) < b
    case (U16(a), U8(b)) => a < Cast(b, 1)
    case (U16(a), U16(b)) => a < b
    case (U16(a), U32(b)) => Cast(a, 2) < b
    case (U16(a), U64(b)) => Cast(a, 3) < b
    case (U16(a), U128(b)) => Cast(a, 4) < b
    case (U32(a), U8(b)) => a < Cast(b, 2)
    case (U32(a), U16(b)) => a < Cast(b, 2)
    case (U32(a), U32(b)) => a < b
    case (U32(a), U64(b)) => Cast(a, 3) < b
    case (U32(a), U128(b)) => Cast(a, 4) < b
    case (U64(a), U8(b)) => a < Cast(b, 3)
    case (U64(a), U16(b)) => a < Cast(b, 3)
    case (U64(a), U32(b)) => a < Cast(b, 3)
    case (U64(a), U64(b)) => a < b
    case (U64(a), U128(b)) => Cast(a, 4) < b
    case (U128(a), U8(b)) => a < Cast(b, 4)
    case (U128(a), U16(b)) => a < Cast(b, 4)
    case (U128(a), U32(b)) => a < Cast(b, 4)
    case (U128(a), U64(b)) => a < Cast(b, 4)
    case (U128(a), U128(b)) => a < b
    case _ => x.Value() < y.Value()
  }

  /** Comparison is comparison of numbers whatever the variants, and on canonical values equality is identity. */
  lemma ComparisonIsNumeric(x: UintN, y: UintN)
    ensures Equal(x, y) <==> x.Value() == y.Value()
    ensures Less(x, y) <==> x.Value() < y.Value()
    ensures x.Canonical() && y.Canonical() ==> (Equal(x, y) <==> x == y)
  {
    hide Cast;
    if !x.Big? && !y.Big? {
      CastToWider(x, y);
    }
  }

  // ----- Arithmetic -----

  /** Add two values of one width, moving to the next one on overflow. */
  function AddAt(a: nat, b: nat, r: MachineRank): UintN
    requires a < Limit(r) && b < Limit(r)
  {
    match CheckedAdd(a, b, r)
    case Some(sum) => From(sum)
    case None =>
      if r == 4 then Big(a + b)
      else
        LimitsGrow(r, r + 1);
        CastKeeps(a, r + 1);
        CastKeeps(b, r + 1);
        OfRank(r + 1, Cast(a, r + 1) + Cast(b, r + 1))
  }

  /** Pair by pair: the narrower value is cast to the wider width. */
  function Add(x: UintN, y: UintN): UintN {
    if y.IsZero() then x
    else
      match (x, y)
      case (U8(a), U8(b)) => AddAt(a, b, 0)
      case (U8(a), U16(b)) => AddAt(Cast(a, 1), b, 1)
      case (U8(a), U32(b)) => AddAt(Cast(a, 2), b, 2)
      case (U8(a), U64(b)) => AddAt(Cast(a, 3), b, 3)
      case (U8(a), U128(b)) => AddAt(Cast(a, 4), b, 4)
      case (U16(a), U8(b)) => AddAt(a, Cast(b, 1), 1)
      case (U16(a), U16(b)) => AddAt(a, b, 1)
      case (U16(a), U32(b)) => AddAt(Cast(a, 2), b, 2)
      case (U16(a), U64(b)) => AddAt(Cast(a, 3), b, 3)
      case (U16(a), U128(b)) => AddAt(Cast(a, 4), b, 4)
      case (U32(a), U8(b)) => AddAt(a, Cast(b, 2), 2)
      case (U32(a), U16(b)) => AddAt(a, Cast(b, 2), 2)
      case (U32(a), U32(b)) => AddAt(a, b, 2)
      case (U32(a), U64(b)) => AddAt(Cast(a, 3), b, 3)
      case (U32(a), U128(b)) => AddAt(Cast(a, 4), b, 4)
      case (U64(a), U8(b)) => AddAt(a, Cast(b, 3), 3)
      case (U64(a), U16(b)) => AddAt(a, Cast(b, 3), 3)
      case (U64(a), U32(b)) => AddAt(a, Cast(b, 3), 3)
      case (U64(a), U64(b)) => AddAt(a, b, 3)
      case (U64(a), U128(b)) => AddAt(Cast(a, 4), b, 4)
      case (U128(a), U8(b)) => AddAt(a, Cast(b, 4), 4)
      case (U128(a), U16(b)) => AddAt(a, Cast(b, 4), 4)
      case (U128(a), U32(b)) => AddAt(a, Cast(b, 4), 4)
      case (U128(a), U64(b)) => AddAt(a, Cast(b, 4), 4)
      case (U128(a), U128(b)) => AddAt(a, b, 4)
      case _ => Big(x.Value() + y.Value())
  }

  function Increment(x: UintN): UintN {
    if x.Big? then Big(x.big + 1)
    else if x.Value() + 1 < Limit(x.Rank()) then OfRank(x.Rank(), x.Value() + 1)
    else if x.Rank() == 4 then Big(x.Value() + 1)
    else
      BelowLimit(x);
      LimitsGrow(x.Rank(), x.Rank() + 1);
      OfRank(x.Rank() + 1, x.Value() + 1)
  }

  function Decrement(x: UintN): Result<UintN, Error> {
    if x.IsZero() then Err(DecrementUnderflow) else Ok(From(x.Value() - 1))
  }

  /**
   * Subtract. A wider machine value minus a narrower one is not checked: the machine operation
   * wraps around at the wider width.
   */
  function Sub(x: UintN, y: UintN): Result<UintN, Error> {
    if y.IsZero() then Ok(x)
    else
      match (x, y)
      case (U8(a), U8(b)) => CheckedSub(a, b, 0)
      case (U16(a), U8(b)) => Ok(From(WrappingSub(a, Cast(b, 1), 1)))
      case (U16(a), U16(b)) => CheckedSub(a, b, 1)
      case (U32(a), U8(b)) => Ok(From(WrappingSub(a, Cast(b, 2), 2)))
      case (U32(a), U16(b)) => Ok(From(WrappingSub(a, Cast(b, 2), 2)))
      case (U32(a), U32(b)) => CheckedSub(a, b, 2)
      case (U64(a), U8(b)) => Ok(From(WrappingSub(a, Cast(b, 3), 3)))
      case (U64(a), U16(b)) => Ok(From(WrappingSub(a, Cast(b, 3), 3)))
      case (U64(a), U32(b)) => Ok(From(WrappingSub(a, Cast(b, 3), 3)))
      case (U64(a), U64(b)) => CheckedSub(a, b, 3)
      case (U128(a), U8(b)) => Ok(From(WrappingSub(a, Cast(b, 4), 4)))
      case (U128(a), U16(b)) => Ok(From(WrappingSub(a, Cast(b, 4), 4)))
      case (U128(a), U32(b)) => Ok(From(WrappingSub(a, Cast(b, 4), 4)))
      case (U128(a), U64(b)) => Ok(From(WrappingSub(a, Cast(b, 4), 4)))
      case (U128(a), U128(b)) => CheckedSub(a, b, 4)
      case _ =>
        ComparisonIsNumeric(x, y);
        if Less(x, y) then Err(DecrementUnderflow) else Ok(From(x.Value() - y.Value()))
  }

  function CheckedSub(a: nat, b: nat, r: MachineRank): Result<UintN, Error> {
    if a >= b then Ok(From(WrappingSub(a, b, r))) else Err(DecrementUnderflow)
  }

  predicate Unchecked(x: UintN, y: UintN) {
    !x.Big? && x.Rank() > y.Rank()
  }

  /** The middle of two numbers: at their own width, through the next one, when they share one. */
  function Middle(x: UintN, y: UintN): UintN {
    match (x, y)
    case (U8(a), U8(b)) => U8(Cast((Cast(a, 1) + Cast(b, 1)) / 2, 0))
    case (U16(a), U16(b)) => U16(Cast((Cast(a, 2) + Cast(b, 2)) / 2, 1))
    case (U32(a), U32(b)) => U32(Cast((Cast(a, 3) + Cast(b, 3)) / 2, 2))
    case (U64(a), U64(b)) => U64(Cast((Cast(a, 4) + Cast(b, 4)) / 2, 3))
    case (U128(a), U128(b)) =>
      var half: nat := (a + b) / 2;
      if half < U128_LIMIT then U128(half) else Big(half)
    case _ => From((x.Value() + y.Value()) / 2)
  }

  function Rem(x: UintN, y: UintN): UintN
    requires !y.IsZero()
  {
    match (x, y)
    case (U8(a), U8(b)) => From(a % b)
    case (U16(a), U8(b)) => From(a % Cast(b, 1))
    case (U16(a), U16(b)) => From(a % b)
    case (U32(a), U8(b)) => From(a % Cast(b, 2))
    case (U32(a), U16(b)) => From(a % Cast(b, 2))
    case (U32(a), U32(b)) => From(a % b)
    case (U64(a), U8(b)) => From(a % Cast(b, 3))
    case (U64(a), U16(b)) => From(a % Cast(b, 3))
    case (U64(a), U32(b)) => From(a % Cast(b, 3))
    case (U64(a), U64(b)) => From(a % b)
    case (U128(a), U8(b)) => From(a % Cast(b, 4))
    case (U128(a), U16(b)) => From(a % Cast(b, 4))
    case (U128(a), U32(b)) => From(a % Cast(b, 4))
    case (U128(a), U64(b)) => From(a % Cast(b, 4))
    case (U128(a), U128(b)) => From(a % b)
    case _ => From(x.Value() % y.Value())
  }

  predicate InStep(x: UintN, from: UintN, step: u64)
    requires step != 1 && !Less(x, from) ==> step != 0
  {
    if step == 1 then true
    else if Less(x, from) then false
    else
      var diff := match Sub(x, from) case Ok(d) => d case Err(_) => U8(0);
      Rem(diff, From(step)).IsZero()
  }

  // ----- What they compute -----

  lemma AddIsNumeric(x: UintN, y: UintN)
    ensures Add(x, y).Value() == x.Value() + y.Value()
    ensures x.Minimal() && y.Minimal() ==> Add(x, y).Minimal()
  {
    hide Cast, AddAt;
    if !x.Big? && !y.Big? {
      CastToWider(x, y);
      AddAtIsNumeric(x.Value(), y.Value(), Wider(x, y));
      if !y.IsZero() {
        AddArms(x, y);
      }
    }
  }

  /** Whatever the pair, its arm adds at the wider width. */
  lemma AddArms(x: UintN, y: UintN)
    requires !x.Big? && !y.Big? && !y.IsZero()
    ensures var r := Wider(x, y); Add(x, y) == AddAt(Cast(x.Value(), r), Cast(y.Value(), r), r)
  {
    hide AddAt;
    CastToWider(x, y);
  }

  lemma AddAtIsNumeric(a: nat, b: nat, r: MachineRank)
    requires a < Limit(r) && b < Limit(r)
    ensures AddAt(a, b, r).Value() == a + b && AddAt(a, b, r).Minimal()
  {
    MinimalExactly(AddAt(a, b, r));
    if r < 4 {
      LimitsGrow(r, r + 1);
      CastKeeps(a, r + 1);
      CastKeeps(b, r + 1);
    }
  }

  lemma IncrementIsNumeric(x: UintN)
    ensures Increment(x).Value() == x.Value() + 1
    ensures x.Minimal() ==> Increment(x).Minimal()
  {
    MinimalExactly(x);
    MinimalExactly(Increment(x));
  }

  /** One less and minimal; only zero has no predecessor. It undoes the successor. */
  lemma DecrementIsNumeric(x: UintN)
    ensures Decrement(x).Err? <==> x.Value() == 0
    ensures Decrement(x).Ok? ==> Decrement(x).value.Value() + 1 == x.Value() && Decrement(x).value.Minimal()
    ensures Decrement(Increment(x)) == Ok(From(x.Value()))
  {
    IncrementIsNumeric(x);
  }

  lemma MiddleIsNumeric(x: UintN, y: UintN)
    ensures Middle(x, y).Value() == (x.Value() + y.Value()) / 2
    ensures x.Minimal() && y.Minimal() ==> Middle(x, y).Minimal()
  {
    hide Cast;
    MinimalExactly(x);
    MinimalExactly(y);
    MinimalExactly(Middle(x, y));
    if x.Rank() == y.Rank() && x.Rank() < 4 {
      var r: MachineRank := x.Rank();
      LimitsGrow(r, r + 1);
      CastKeeps(x.Value(), r + 1);
      CastKeeps(y.Value(), r + 1);
      CastKeeps((x.Value() + y.Value()) / 2, r);
    }
  }

  lemma RemIsNumeric(x: UintN, y: UintN)
    requires !y.IsZero()
    ensures Rem(x, y).Value() == x.Value() % y.Value() && Rem(x, y).Minimal()
  {
    hide Cast;
    if !x.Big? && !y.Big? {
      CastToWider(x, y);
    }
  }

  /** On any values, subtraction is right exactly when it does not take the unchecked way into an underflow. */
  lemma SubExactly(x: UintN, y: UintN)
    ensures (if x.Value() < y.Value() then Sub(x, y).Err?
             else Sub(x, y).Ok? && Sub(x, y).value.Value() == x.Value() - y.Value())
            <==> !(Unchecked(x, y) && x.Value() < y.Value())
  {
    hide Cast, WrappingSub, Less;
    ComparisonIsNumeric(x, y);
    if !x.Big? && x.Rank() >= y.Rank() {
      BelowLimit(x);
      CastToWider(x, y);
      if y.Value() <= x.Value() {
        WrappingSubKeeps(x.Value(), y.Value(), x.Rank());
      }
    }
  }

  /** On minimal values, subtraction is subtraction, an underflow is always noticed, and the result is minimal. */
  lemma SubIsNumeric(x: UintN, y: UintN)
    requires x.Minimal()
    ensures Sub(x, y).Ok? <==> y.Value() <= x.Value()
    ensures Sub(x, y).Ok? ==> Sub(x, y).value.Value() == x.Value() - y.Value() && Sub(x, y).value.Minimal()
  {
    hide Cast, WrappingSub, Less;
    SubExactly(x, y);
    MinimalExactly(x);
    if Unchecked(x, y) {
      NarrowerIsSmaller(x, y);
    }
  }

  lemma NarrowerIsSmaller(x: UintN, y: UintN)
    requires Unchecked(x, y) && Limit(x.Rank() - 1) <= x.Value()
    ensures y.Value() < x.Value()
  {
    BelowLimit(y);
    LimitsGrow(y.Rank(), x.Rank() - 1);
  }

  /** A value kept too wide wraps around: 0 in 16 bits minus 1 in 8 bits is 65535. */
  lemma WideZeroWraps()
    ensures !U16(0).Minimal() && Sub(U16(0), U8(1)) == Ok(U16(65535))
  {
  }

  /** Every operation gives a minimal value when it gets minimal ones. */
  lemma MinimalIsClosed(x: UintN, y: UintN)
    requires x.Minimal() && y.Minimal()
    ensures Add(x, y).Minimal() && Increment(x).Minimal() && Middle(x, y).Minimal()
    ensures Decrement(x).Ok? ==> Decrement(x).value.Minimal()
    ensures Sub(x, y).Ok? ==> Sub(x, y).value.Minimal()
    ensures !y.IsZero() ==> Rem(x, y).Minimal()
  {
    hide Add, Increment, Middle, Sub, Rem;
    AddIsNumeric(x, y);
    IncrementIsNumeric(x);
    MiddleIsNumeric(x, y);
    SubIsNumeric(x, y);
    if !y.IsZero() {
      RemIsNumeric(x, y);
    }
  }

  /** From the one form of its value to the one form of its value: big integers appear only beyond the machine widths. */
  lemma CanonicalIsClosed(x: UintN, y: UintN)
    requires x.Canonical() && y.Canonical()
    ensures Add(x, y).Canonical() && Increment(x).Canonical() && Middle(x, y).Canonical()
    ensures Decrement(x).Ok? ==> Decrement(x).value.Canonical()
    ensures Sub(x, y).Ok? ==> Sub(x, y).value.Canonical()
    ensures !y.IsZero() ==> Rem(x, y).Canonical()
  {
    hide Add, Middle, Sub, Rem, Increment;
    CanonicalSum(x, y);
    CanonicalNext(x);
    CanonicalMiddle(x, y);
    CanonicalRest(x, y);
  }

  lemma CanonicalSum(x: UintN, y: UintN)
    requires x.Canonical() && y.Canonical()
    ensures Add(x, y).Canonical()
  {
    hide Cast, AddAt;
    if !x.Big? && !y.Big? && !y.IsZero() {
      CastToWider(x, y);
      AddArms(x, y);
      CanonicalAt(x.Value(), y.Value(), Wider(x, y));
    }
  }

  lemma CanonicalAt(a: nat, b: nat, r: MachineRank)
    requires a < Limit(r) && b < Limit(r)
    ensures AddAt(a, b, r).Canonical()
  {
    if r < 4 {
      LimitsGrow(r, r + 1);
      CastKeeps(a, r + 1);
      CastKeeps(b, r + 1);
    }
  }

  lemma CanonicalNext(x: UintN)
    requires x.Canonical()
    ensures Increment(x).Canonical()
  {
  }

  lemma CanonicalMiddle(x: UintN, y: UintN)
    requires x.Canonical() && y.Canonical()
    ensures Middle(x, y).Canonical()
  {
    hide Middle, Cast;
    MiddleIsNumeric(x, y);
    MinimalExactly(x);
    MinimalExactly(y);
    MiddleForm(x, y);
    MinimalExactly(Middle(x, y));
  }

  lemma MiddleForm(x: UintN, y: UintN)
    ensures Middle(x, y).Big? ==> Middle(x, y).Value() >= U128_LIMIT
  {
    hide Cast;
  }

  lemma CanonicalRest(x: UintN, y: UintN)
    requires x.Canonical()
    ensures Sub(x, y).Ok? ==> Sub(x, y).value.Canonical()
    ensures !y.IsZero() ==> Rem(x, y).Canonical()
  {
    hide Cast, WrappingSub;
  }

  /** Binary search can rely on the middle: strictly between two numbers that are not neighbours. */
  lemma MiddleIsBetween(x: UintN, y: UintN)
    requires Less(Increment(x), y)
    ensures Less(x, Middle(x, y)) && Less(Middle(x, y), y)
  {
    hide Less, Middle, Increment;
    IncrementIsNumeric(x);
    MiddleIsNumeric(x, y);
    ComparisonIsNumeric(Increment(x), y);
    ComparisonIsNumeric(x, Middle(x, y));
    ComparisonIsNumeric(Middle(x, y), y);
  }

  /** The step test of identifiers is the step test of numbers. */
  lemma InStepIsNumeric(x: UintN, from: UintN, step: u64)
    requires x.Minimal() && step >= 1
    ensures InStep(x, from, step) <==> Selection.InStep(x.Value(), from.Value(), step)
  {
    hide Less, Sub, Rem, From;
    ComparisonIsNumeric(x, from);
    SubIsNumeric(x, from);
    if from.Value() <= x.Value() {
      RemIsNumeric(Sub(x, from).value, From(step));
    }
  }

  // ----- Bytes -----

  lemma ByteLengthOf(v: nat)
    requires v >= U128_LIMIT
    ensures ByteLength(v) > 16
  {
    MachineLimits();
    ByteLengthAtLeast(v, 16);
  }

  /** A canonical value takes the width the file formats give its number. */
  lemma SizeIsWidth(x: UintN)
    ensures x.Canonical() ==> x.SizeInBytes() == IdWidth(x.Value())
    ensures x.Value() < Pow256(x.SizeInBytes())
  {
    MachineLimits();
  }

  function ValueBytes(x: UintN): (s: Bytes)
    ensures |s| == x.SizeInBytes() && LeValue(s) == x.Value()
  {
    SizeIsWidth(x);
    LeRoundTrip(x.Value(), x.SizeInBytes());
    LeBytes(x.Value(), x.SizeInBytes())
  }

  function ReadValue(s: Bytes): (x: UintN)
    ensures x.Value() == LeValue(s) && x.Minimal()
  {
    MachineLimits();
    LeValueBound(s);
    if |s| in {0, 1, 2, 4, 8, 16} then From(LeValue(s)) else Big(LeValue(s))
  }

  /** Of the machine lengths the narrowest variant is read, of any other length a big integer, however small. */
  lemma ReadForm(s: Bytes)
    ensures var machine := |s| == 0 || |s| == 1 || |s| == 2 || |s| == 4 || |s| == 8 || |s| == 16;
            (ReadValue(s).Big? <==> !machine) && (machine ==> ReadValue(s).Canonical())
  {
    MachineLimits();
    LeValueBound(s);
    if |s| <= 16 {
      Pow256Monotone(|s|, 16);
    }
  }

  function WriteToBuffer(x: UintN): Bytes
    requires x.SizeInBytes() < U64_LIMIT
  {
    U64Bytes(x.SizeInBytes()) + ValueBytes(x)
  }

  function ReadFromSlice(s: Bytes): (r: Result<(UintN, nat), Error>) {
    if |s| < 8 then Err(SliceTooShort)
    else
      var len := ReadU64(s[0..8]);
      if |s| < 8 + len then Err(SliceTooShort) else Ok((ReadValue(s[8..8 + len]), 8 + len))
  }

  /** What is written is read back, in its canonical form if it had it, whatever follows. */
  lemma SerialRoundTrip(x: UintN, rest: Bytes)
    requires x.SizeInBytes() < U64_LIMIT
    ensures var r := ReadFromSlice(WriteToBuffer(x) + rest);
            && r.Ok? && r.value.1 == |WriteToBuffer(x)| && r.value.0.Minimal()
            && Equal(r.value.0, x) && (x.Canonical() ==> r.value.0 == x)
  {
    hide U64Bytes, ReadU64, LeValue, LeBytes, Equal;
    var a, b := U64Bytes(x.SizeInBytes()), ValueBytes(x);
    SliceLeft(a + b, rest, 0, 8);
    SliceWhole(a, b);
    SliceLeft(a + b, rest, 8, |a + b|);
    SliceRight(a, b, 8, |a + b|);
    if x.Canonical() && x.Big? {
      ByteLengthOf(x.Value());
    }
    ComparisonIsNumeric(ReadValue(b), x);
  }

  /** The length-prefixed numbers of the file formats are identifiers. */
  lemma PrefixedIsIdentifier(s: Bytes)
    ensures match ReadFromSlice(s)
            case Ok((x, n)) => ReadPrefixed(s) == Some((x.Value(), n))
            case Err(_) => ReadPrefixed(s) == None
  {
    hide ReadU64, LeValue;
    if |s| >= 8 {
      assert s[0..8] == s[..8];
    }
  }

  /** Written in a fixed number of bytes. A value too wide in form but not in number is still written out, in its form. */
  function WriteWithSize(x: UintN, size: nat): (r: Result<Bytes, Error>) {
    if x.SizeInBytes() > size && size !in {1, 2, 4, 8, 16} then Err(InvalidUintNSize)
    else if x.SizeInBytes() > size && x.Value() >= Pow256(size) then Err(Error.ValueTooLarge)
    else Ok(ValueBytes(x) + Zeros(if x.SizeInBytes() < size then size - x.SizeInBytes() else 0))
  }

  /** Which values are refused, and how. */
  lemma WriteRefused(x: UintN, size: nat)
    ensures var r, machine := WriteWithSize(x, size), size == 1 || size == 2 || size == 4 || size == 8 || size == 16;
            && (r == Err(InvalidUintNSize) <==> x.SizeInBytes() > size && !machine)
            && (r == Err(Error.ValueTooLarge) <==> x.SizeInBytes() > size && machine && x.Value() >= Pow256(size))
  {
    hide ValueBytes;
  }

  /** The result has the asked-for size exactly when the value's form is not wider; then it reads back as the value. */
  lemma WriteWithSizeExactly(x: UintN, size: nat)
    ensures var r := WriteWithSize(x, size);
            && (r.Ok? && |r.value| == size <==> x.SizeInBytes() <= size)
            && (r.Ok? ==> LeValue(r.value) == x.Value())
            && (x.Minimal() && r.Ok? ==> |r.value| == size)
  {
    hide ValueBytes, LeValue;
    var pad := if x.SizeInBytes() < size then size - x.SizeInBytes() else 0;
    LeValuePadded(ValueBytes(x), pad);
    if x.SizeInBytes() > size && size in {1, 2, 4, 8, 16} {
      TooWide(x, size);
    }
  }

  lemma TooWide(x: UintN, size: nat)
    requires x.SizeInBytes() > size && size in {1, 2, 4, 8, 16}
    ensures x.Minimal() ==> x.Value() >= Pow256(size)
  {
    MachineLimits();
    if x.Big? {
      Pow256Monotone(size, x.SizeInBytes() - 1);
    }
  }

  /** A value in a form wider than its number spills over: 5 in 16 bits, written in one byte, takes two. */
  lemma WideFormSpills()
    ensures !U16(5).Minimal()
    ensures var r := WriteWithSize(U16(5), 1); r.Ok? && |r.value| == 2
  {
    MachineLimits();
  }

  /** Entry headers written as numbers are entry headers written as identifiers. */
  lemma PaddedIsIdentifier(v: nat, size: nat)
    ensures WriteWithSize(From(v), size)
         == match PaddedValue(v, size)
            case Ok(s) => Ok(s)
            case Err(e) => Err(if e == EncodeError.ValueTooLarge then Error.ValueTooLarge else InvalidUintNSize)
  {
    hide LeBytes;
    var x := From(v);
    SizeIsWidth(x);
    if x.SizeInBytes() > size && size in {1, 2, 4, 8, 16} {
      TooWide(x, size);
    }
  }
}
