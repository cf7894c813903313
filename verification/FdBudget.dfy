/** The file descriptor check of src/config/fd_budget.rs. */
module FdBudget {

  const RESERVED_FDS: nat := 64
  const U64: nat := 0x1_0000_0000_0000_0000

  /** Accepts when `max_connections as u64 + 64`, in 64-bit arithmetic, is within the soft limit. */
  predicate CheckFdBudget(max: nat, soft: nat) {
    (max + RESERVED_FDS) % U64 <= soft
  }

  /** The soft limit is absent when it is unlimited or cannot be read; then nothing is checked. */
  datatype SoftLimit = Unlimited | Limited(soft: nat)

  predicate WithinNofile(max: nat, limit: SoftLimit) {
    limit.Limited? ==> CheckFdBudget(max, limit.soft)
  }

  /** Without wrap-around it accepts exactly what leaves 64 descriptors free; with it, exactly what the
      wrapped sum lets through. */
  lemma AcceptedIff(max: nat, soft: nat)
    requires max < 0x1_0000_0000_0000_0000
    ensures CheckFdBudget(max, soft)
       <==> if max + 64 < 0x1_0000_0000_0000_0000 then max + 64 <= soft
            else max + 64 <= soft + 0x1_0000_0000_0000_0000
  {
  }

  /** With no limit to read everything is within it; with one, exactly what the check accepts. */
  lemma WithinNofileIff(max: nat, limit: SoftLimit)
    requires max + 64 < 0x1_0000_0000_0000_0000
    ensures WithinNofile(max, limit)
       <==> match limit
            case Unlimited => true
            case Limited(soft) => max + 64 <= soft
  {
    if limit.Limited? {
      AcceptedIff(max, limit.soft);
    }
  }

  /** An accepted configuration really fits if and only if the 64-bit sum did not wrap around. */
  lemma BudgetSoundIffNoOverflow(max: nat, soft: nat)
    requires max < U64 && soft < U64 && CheckFdBudget(max, soft)
    ensures max + RESERVED_FDS <= soft <==> max + RESERVED_FDS < U64
  {
  }

  /** The wrap-around that the check lets through: it accepts this argument under every limit. A
      configuration file cannot hold it, because TOML integers are 64-bit signed. */
  lemma OverflowIsAccepted(soft: nat)
    requires soft < U64
    ensures CheckFdBudget(U64 - RESERVED_FDS, soft)
  {
  }
}
