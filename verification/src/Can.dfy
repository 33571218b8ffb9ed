/** Raw CAN frames and their arbitration on the bus. */
module Can {
  import opened Transfer

  /** A 32-bit identifier word: three flags above the 29 identifier bits. */
  type CanId = n: int | 0 <= n < 0x1_0000_0000

  /** The data length code is the length of `data`. */
  datatype CanFrame = CanFrame(id: CanId, data: seq<Byte>)

  const FLAG_EFF := 0x8000_0000
  const FLAG_RTR := 0x4000_0000
  const FLAG_ERR := 0x2000_0000
  const MAX_DATA_LEN := 8

  predicate IsExtended(f: CanFrame) { f.id >= FLAG_EFF }

  predicate IsRemote(f: CanFrame) { (f.id / FLAG_RTR) % 2 == 1 }

  predicate IsError(f: CanFrame) { (f.id / FLAG_ERR) % 2 == 1 }

  function CleanId(f: CanFrame): nat { f.id % FLAG_ERR }

  /** The bits that are arbitrated first; a standard frame has no others. */
  function BaseId(f: CanFrame): nat
  {
    if IsExtended(f) then CleanId(f) / 0x4_0000 else CleanId(f)
  }

  predicate PriorityHigherThan(a: CanFrame, b: CanFrame)
  {
    if IsExtended(a) != IsExtended(b) then
      if BaseId(a) != BaseId(b) then BaseId(a) < BaseId(b) else IsExtended(b)
    else if CleanId(a) == CleanId(b) && IsRemote(a) != IsRemote(b) then
      IsRemote(b)
    else
      CleanId(a) < CleanId(b)
  }

  /**
    * The bits a frame drives onto the bus during arbitration (ISO 11898-1), read as a number: the base identifier,
    * then RTR and a dominant IDE for a standard frame, or a recessive SRR, a recessive IDE, the eighteen extension
    * bits and RTR for an extended one. Dominant is zero, so the smaller number wins.
    */
  function ArbitrationField(f: CanFrame): nat
  {
    var rtr := if IsRemote(f) then 1 else 0;
    if IsExtended(f) then
      BaseId(f) * 0x20_0000 + 0x10_0000 + 0x8_0000 + (CleanId(f) % 0x4_0000) * 2 + rtr
    else
      BaseId(f) * 0x20_0000 + rtr * 0x10_0000
  }

  /** The comparison used everywhere in the stack is bus arbitration, for all pairs of frames. */
  lemma PriorityIsArbitration(a: CanFrame, b: CanFrame)
    ensures PriorityHigherThan(a, b) <==> ArbitrationField(a) < ArbitrationField(b)
  {
  }
}
