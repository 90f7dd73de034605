/** The per-slot status byte kept in the system-status area, and the slot
    selection rule of the main boot loader (`boot_image_find`). */
module ImageStatus {
  import opened Common

  const NEWER_MASK: bv8 := 0x01
  const VERIFY_MASK: bv8 := 0x06
  const IA_MASK: bv8 := 0x18

  const OLDER: bv8 := 0x00
  const NEWER: bv8 := 0x01
  const VERIFY_OK: bv8 := 0x02
  const VERIFY_FAIL: bv8 := 0x04
  const IA_OK: bv8 := 0x08
  const IA_FAIL: bv8 := 0x10

  /** Result of `rom_sys_status_get` for one image status entry. */
  datatype StatusRead = FoundOk(stat: bv8) | NotFound | FoundErr

  /** Result of `boot_image_find`: a slot, together with whether the loader has
      to create the NEWER flag of image 0 first, or an error code. */
  datatype Selection = Pick(idx: nat, firstBoot: bool) | NoPick(code: int)

  predicate IsNewer(b: bv8) { b & NEWER_MASK == NEWER }
  predicate VerifiedOk(b: bv8) { b & VERIFY_MASK == VERIFY_OK }
  predicate VerifiedBad(b: bv8) { b & VERIFY_MASK == VERIFY_FAIL }
  predicate IaOk(b: bv8) { b & IA_MASK == IA_OK }
  predicate IaBad(b: bv8) { b & IA_MASK == IA_FAIL }

  /** A slot the loader prefers: the newest download, not yet known to be bad. */
  predicate Fresh(r: StatusRead) {
    r.FoundOk? && IsNewer(r.stat) && !VerifiedBad(r.stat) && !IaBad(r.stat)
  }

  /** A slot the loader may fall back to: it booted before and was confirmed. */
  predicate Proven(r: StatusRead) {
    r.FoundOk? && VerifiedOk(r.stat) && IaOk(r.stat)
  }

  predicate Eligible(r: StatusRead) { Fresh(r) || Proven(r) }

  /** What the selection has to achieve, said without any order of tests: an
      eligible slot is chosen, a fresh one whenever there is one, and image 0
      wins a tie; nothing is chosen only when nothing is eligible. */
  ghost predicate RightChoice(r0: StatusRead, r1: StatusRead, s: Selection) {
    if r0.FoundErr? then s == NoPick(-2)
    else if r1.FoundErr? then s == NoPick(-3)
    else if r0.NotFound? then s == if r1.NotFound? then Pick(0, true) else NoPick(-4)
    else match s
      case NoPick(code) => code == -5 && !Eligible(r0) && !Eligible(r1)
      case Pick(i, first) =>
        var (mine, other) := if i == 0 then (r0, r1) else (r1, r0);
        && !first && i < 2
        && Eligible(mine)
        && (Fresh(other) ==> Fresh(mine))
        && (i == 1 ==> !Fresh(r0) && (Fresh(r1) || !Proven(r0)))
  }

  /** The selection as a function of the two status reads. */
  function Select(r0: StatusRead, r1: StatusRead): (s: Selection)
    ensures RightChoice(r0, r1, s)
  {
    if r0.FoundErr? then NoPick(-2)
    else if r1.FoundErr? then NoPick(-3)
    else if r0.NotFound? && r1.FoundOk? then NoPick(-4)
    else if r0.NotFound? then Pick(0, true)
    else if Fresh(r0) then Pick(0, false)
    else if Fresh(r1) then Pick(1, false)
    else if Proven(r0) then Pick(0, false)
    else if Proven(r1) then Pick(1, false)
    else NoPick(-5)
  }

  /** The declarative rule leaves no freedom: it determines the selection. */
  lemma RightChoiceIsUnique(r0: StatusRead, r1: StatusRead, s: Selection)
    requires RightChoice(r0, r1, s)
    ensures s == Select(r0, r1)
  {
    assert RightChoice(r0, r1, Select(r0, r1));
  }

  /** `rom_sys_set_img_flag`: the masked bits are replaced; a missing entry is
      created from zero. */
  function SetFlag(st: Option<bv8>, mask: bv8, flag: bv8): (r: Option<bv8>)
    ensures r.Some? && r.value & mask == flag & mask
  {
    Some(((if st.Some? then st.value else 0) & !mask) | (flag & mask))
  }

  /** Every bit outside the mask is kept. */
  lemma FlagKeepsOtherBits(st: Option<bv8>, mask: bv8, flag: bv8)
    requires st.Some?
    ensures SetFlag(st, mask, flag).value & !mask == st.value & !mask
  {
    KeepsBits(st.value, mask, flag);
  }

  lemma KeepsBits(b: bv8, mask: bv8, flag: bv8)
    ensures ((b & !mask) | (flag & mask)) & !mask == b & !mask
  {
  }

  function Read(st: Option<bv8>): StatusRead {
    if st.Some? then FoundOk(st.value) else NotFound
  }

  predicate Bad(st: Option<bv8>) { st.Some? && VerifiedBad(st.value) }

  /** Marking VERIFY_OK leaves the other fields of the status byte alone. */
  lemma ConfirmKeepsRest(st: Option<bv8>)
    requires st.Some?
    ensures var b := SetFlag(st, VERIFY_MASK, VERIFY_OK).value;
            && VerifiedOk(b) && !VerifiedBad(b) && IsNewer(b) == IsNewer(st.value)
            && IaOk(b) == IaOk(st.value) && IaBad(b) == IaBad(st.value)
  {
  }

  /** Marking the selected image VERIFY_OK never changes the next selection. */
  lemma MarkingOkKeepsSelection(st0: Option<bv8>, st1: Option<bv8>)
    requires Select(Read(st0), Read(st1)).Pick? && st0.Some?
    ensures var i := Select(Read(st0), Read(st1)).idx;
            var st0' := if i == 0 then SetFlag(st0, VERIFY_MASK, VERIFY_OK) else st0;
            var st1' := if i == 1 then SetFlag(st1, VERIFY_MASK, VERIFY_OK) else st1;
            Select(Read(st0'), Read(st1')) == Pick(i, false)
  {
    var i := Select(Read(st0), Read(st1)).idx;
    ConfirmKeepsRest(if i == 0 then st0 else st1);
  }

  /** After the selected image is marked VERIFY_FAIL the loader turns to the
      other slot, or finds nothing; it never returns to the failed one. */
  lemma MarkingFailMovesOn(st0: Option<bv8>, st1: Option<bv8>)
    requires Select(Read(st0), Read(st1)).Pick? && st0.Some?
    ensures var i := Select(Read(st0), Read(st1)).idx;
            var st0' := if i == 0 then SetFlag(st0, VERIFY_MASK, VERIFY_FAIL) else st0;
            var st1' := if i == 1 then SetFlag(st1, VERIFY_MASK, VERIFY_FAIL) else st1;
            var other := if i == 0 then st1 else st0;
            Select(Read(st0'), Read(st1')) ==
              if Eligible(Read(other)) then Pick(1 - i, false) else NoPick(-5)
  {
    var i := Select(Read(st0), Read(st1)).idx;
    var b := SetFlag(if i == 0 then st0 else st1, VERIFY_MASK, VERIFY_FAIL).value;
    assert VerifiedBad(b) && !VerifiedOk(b);
  }
}
