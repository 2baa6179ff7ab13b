/** The geometry of a DOOMRING region (crates/rocket-surgeon-shm/src/lib.rs). */
module RingConfig {
  import opened Prelude
  import opened Bits

  const CONTROL_SIZE: nat := 4096
  const HEADER_SIZE: nat := 128

  datatype Config = Config(backuptics: nat, slotSize: nat)

  /** Enough of an accepted config for its arithmetic to be defined. */
  type LiveConfig = c: Config | c.backuptics > 0 && c.slotSize >= HEADER_SIZE witness Config(1, HEADER_SIZE)

  datatype ConfigError = NotPowerOfTwo | InvalidConfig

  /** `RingConfig::new`; `usize` is 64 bits wide. */
  function New(backuptics: nat, slotSize: nat): (r: Result<Config, ConfigError>)
    requires backuptics < U32_LIMIT && slotSize < U64_LIMIT
  {
    if backuptics == 0 || And(backuptics, backuptics - 1) != 0 then Err(NotPowerOfTwo)
    else if slotSize < HEADER_SIZE then Err(InvalidConfig)
    else if backuptics * slotSize >= U64_LIMIT then Err(InvalidConfig)
    else if backuptics * slotSize + CONTROL_SIZE >= U64_LIMIT then Err(InvalidConfig)
    else Ok(Config(backuptics, slotSize))
  }

  function RegionSize(c: Config): nat {
    CONTROL_SIZE + c.backuptics * c.slotSize
  }

  function SlotOffset(c: LiveConfig, cursor: nat): nat {
    CONTROL_SIZE + And(cursor, c.backuptics - 1) * c.slotSize
  }

  function DataCapacity(c: LiveConfig): nat {
    c.slotSize - HEADER_SIZE
  }

  /** What every config handed out by `New` satisfies. */
  ghost predicate Accepted(c: Config) {
    IsPow2(c.backuptics) && c.backuptics > 0 && c.slotSize >= HEADER_SIZE && RegionSize(c) < U64_LIMIT
  }

  /** `New` succeeds exactly on a power-of-two slot count whose region fits the address space. */
  lemma NewAccepts(backuptics: nat, slotSize: nat)
    requires backuptics < U32_LIMIT && slotSize < U64_LIMIT
    ensures New(backuptics, slotSize).Ok? <==> Accepted(Config(backuptics, slotSize))
    ensures New(backuptics, slotSize).Ok?
       <==> IsPow2(backuptics) && slotSize >= 128 && 4096 + backuptics * slotSize < U64_LIMIT
    ensures New(backuptics, slotSize).Ok? ==> New(backuptics, slotSize).value == Config(backuptics, slotSize)
    ensures New(backuptics, slotSize) == Err(NotPowerOfTwo) <==> !IsPow2(backuptics)
  {
    if backuptics > 0 {
      PowerOfTwoTest(backuptics);
    } else {
      forall k: nat ensures backuptics != Pow2(k) {}
    }
  }

  lemma MaskedIndex(c: Config, cursor: nat)
    requires Accepted(c)
    ensures And(cursor, c.backuptics - 1) == cursor % c.backuptics < c.backuptics
  {
    var k: nat :| c.backuptics == Pow2(k);
    MaskIsMod(cursor, k);
  }

  /** The masked index is the remainder by the slot count, and its slot lies wholly behind the control block. */
  lemma SlotInRegion(c: Config, cursor: nat)
    requires Accepted(c)
    ensures SlotOffset(c, cursor) == 4096 + (cursor % c.backuptics) * c.slotSize
    ensures CONTROL_SIZE <= SlotOffset(c, cursor) <= RegionSize(c) - c.slotSize < U64_LIMIT
  {
    MaskedIndex(c, cursor);
    SlotFits(And(cursor, c.backuptics - 1), c.backuptics, c.slotSize);
  }

  lemma SlotFits(i: nat, b: nat, s: nat)
    requires i < b
    ensures 0 <= i * s && i * s + s <= b * s
  {
    MulMono(i + 1, b, s);
    Distribute(i, s);
  }

  lemma Distribute(i: nat, s: nat)
    ensures (i + 1) * s == i * s + s
  {
  }

  /** Two cursors less than a lap apart never share a byte. */
  lemma SlotsDisjoint(c: Config, m: nat, n: nat)
    requires Accepted(c) && m < n < m + c.backuptics
    ensures || SlotOffset(c, m) + c.slotSize <= SlotOffset(c, n)
            || SlotOffset(c, n) + c.slotSize <= SlotOffset(c, m)
  {
    SlotInRegion(c, m);
    SlotInRegion(c, n);
    var i, j := m % c.backuptics, n % c.backuptics;
    ModDiffers(m, n, c.backuptics);
    if i < j {
      MulMono(i + 1, j, c.slotSize);
      Distribute(i, c.slotSize);
    } else {
      MulMono(j + 1, i, c.slotSize);
      Distribute(j, c.slotSize);
    }
  }
}
