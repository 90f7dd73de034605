/** The main boot loader: slot selection, address mapping, validation against
    the version counter, marking, and the jump or reset that ends each pass. */
module BootLoader {
  import opened Common
  import opened ImageStatus

  // Flash layout (config_gdm32.h), for the build that boots from ROM.
  const FLASH_SIZE := 0x400000
  const PAGE := 0x1000
  const IMG_0 := 0xA000
  const IMG_1 := 0x1EA000
  const SLOT_SIZE := 0x1E0000  // of both slots: image 1 ends at 0x3CA000
  const IMG_OVERHEAD_LEN := 0x200
  const IMG_HEADER_SIZE := 0x20

  type SlotId = i: nat | i < 2

  function Base(i: SlotId): nat {
    if i == 0 then IMG_0 else IMG_1
  }

  /** `ibl_opt`: what the boot ROM asks the loader to verify. */
  datatype BootOpt = VerifyNone | VerifyImgOnly | VerifyCertImg

  /** The ROM's signature checks, left uninterpreted: the version of an image
      they accept, nothing for an image they reject. */
  datatype Rom = Rom(img: seq<byte> -> Option<nat>, certImg: seq<byte> -> Option<nat>)

  datatype Env = Env(opt: BootOpt, rom: Rom) {
    predicate Verifying() { !opt.VerifyNone? }

    function Check(image: seq<byte>): Option<nat>
      requires Verifying()
    {
      if opt.VerifyCertImg? then rom.certImg(image) else rom.img(image)
    }
  }

  /** Everything that survives a loss of power. */
  datatype DeviceRecord = Device(st0: Option<bv8>, st1: Option<bv8>,
                                 running: Option<SlotId>, counter: nat, flash: seq<byte>)
  {
    function St(i: SlotId): Option<bv8> { if i == 0 then st0 else st1 }

    function Flagged(i: SlotId, mask: bv8, flag: bv8): DeviceRecord {
      if i == 0 then this.(st0 := SetFlag(st0, mask, flag)) else this.(st1 := SetFlag(st1, mask, flag))
    }

    function Selected(): Selection { Select(Read(st0), Read(st1)) }
  }

  type Device = d: DeviceRecord | |d.flash| == FLASH_SIZE
    witness Device(None, None, None, 0, seq(FLASH_SIZE, _ => 0))

  /** The bytes the ROM validates for a slot: from the image header to the end. */
  function Contents(flash: seq<byte>, i: SlotId): seq<byte>
    requires |flash| == FLASH_SIZE
  {
    flash[Base(i) + IMG_OVERHEAD_LEN - IMG_HEADER_SIZE..Base(i) + SLOT_SIZE]
  }

  /** The slot holds an image the ROM accepts and the version counter admits. */
  predicate Authentic(env: Env, d: Device, i: SlotId)
    requires env.Verifying()
  {
    var v := env.Check(Contents(d.flash, i));
    v.Some? && v.value >= d.counter
  }

  // ---- Address mapping ------------------------------------------------------

  /** The flash controller's offset registers, counted in pages. */
  datatype Mapping = Mapping(startPage: nat, endPage: nat, value: nat)

  const UNMAPPED := Mapping(0x1fff, 0, 0)

  function Physical(m: Mapping, a: nat): nat {
    if m.startPage <= a / PAGE <= m.endPage then a + m.value * PAGE else a
  }

  /** `flash_offset_mapping`. */
  const IMAGE_1_MAPPING := Mapping(IMG_0 / PAGE, IMG_1 / PAGE - 1, (IMG_1 - IMG_0) / PAGE)

  function MappingFor(i: SlotId): Mapping {
    if i == 1 then IMAGE_1_MAPPING else UNMAPPED
  }

  function ReadLogical(flash: seq<byte>, m: Mapping, a: nat, n: nat): seq<byte>
    requires forall p :: a <= p < a + n ==> Physical(m, p) < |flash|
  {
    seq(n, k requires 0 <= k < n => flash[Physical(m, a + k)])
  }

  /** With the mapping of slot i in force, address p reads a byte of slot i. */
  predicate ReadsSlot(i: SlotId, p: nat) {
    Base(i) <= Physical(MappingFor(i), p) < Base(i) + SLOT_SIZE
  }

  /** Both images are linked at image 0's address. With the mapping of the
      selected slot in force, every address of that range reads the selected slot. */
  lemma MappedRangeIsTheSlot(i: SlotId, p: nat)
    requires IMG_0 <= p < IMG_1
    ensures ReadsSlot(i, p) && Physical(MappingFor(i), p) == p - IMG_0 + Base(i)
  {
    assert IMG_0 / PAGE <= p / PAGE <= IMG_1 / PAGE - 1;
  }

  /** The loader reads the image header `IMG_HEADER_SIZE` bytes before the
      image. Those reads resolve to the selected slot exactly when the build
      leaves room for the header: the build whose overhead is zero reads below
      the mapped range, outside image 1. */
  lemma HeaderIsInSlotIff(overhead: nat)
    requires overhead <= SLOT_SIZE
    ensures (forall i: SlotId, p: nat :: IMG_0 + overhead - IMG_HEADER_SIZE <= p < IMG_0 + overhead ==> ReadsSlot(i, p))
            <==> overhead >= IMG_HEADER_SIZE
  {
    if overhead >= IMG_HEADER_SIZE {
      forall i: SlotId, p: nat | IMG_0 + overhead - IMG_HEADER_SIZE <= p < IMG_0 + overhead
        ensures ReadsSlot(i, p)
      {
        MappedRangeIsTheSlot(i, p);
      }
    } else {
      var p := IMG_0 + overhead - IMG_HEADER_SIZE;
      assert p / PAGE < IMG_0 / PAGE;
      assert !ReadsSlot(1, p);
    }
  }

  const HEADER_ADDR := IMG_0 + IMG_OVERHEAD_LEN - IMG_HEADER_SIZE
  const IMAGE_LEN := SLOT_SIZE - IMG_OVERHEAD_LEN + IMG_HEADER_SIZE

  lemma ReadIsContents(flash: seq<byte>, i: SlotId)
    requires |flash| == FLASH_SIZE
    ensures forall p :: HEADER_ADDR <= p < HEADER_ADDR + IMAGE_LEN ==> Physical(MappingFor(i), p) < |flash|
    ensures ReadLogical(flash, MappingFor(i), HEADER_ADDR, IMAGE_LEN) == Contents(flash, i)
  {
    forall p | HEADER_ADDR <= p < HEADER_ADDR + IMAGE_LEN
      ensures Physical(MappingFor(i), p) == p - IMG_0 + Base(i)
    {
      MappedRangeIsTheSlot(i, p);
    }
  }

  // ---- One pass through the loader -----------------------------------------

  /** How one pass through `main` ends. */
  datatype Outcome = NoImage(code: int) | Reset(failed: SlotId) | Jump(idx: SlotId)

  /** `image_x_validate` and `rom_sys_set_fw_ver`: the code returned and the
      version counter afterwards. */
  function Validate(env: Env, d: Device, i: SlotId): (r: (int, nat))
    ensures r.1 >= d.counter
    ensures env.Verifying() ==> (r.0 == 0 <==> Authentic(env, d, i))
    ensures env.Verifying() && r.0 == 0 ==> env.Check(Contents(d.flash, i)) == Some(r.1)
    ensures r.0 != 0 ==> r.0 < 0 && r.1 == d.counter
    // Without verification nothing is looked at and nothing is recorded.
    ensures !env.Verifying() ==> r == (0, d.counter)
    // Which check refused: certificate and image, image alone, or the version.
    ensures r.0 == -3 <==> env.opt.VerifyCertImg? && env.rom.certImg(Contents(d.flash, i)) == None
    ensures r.0 == -4 <==> env.opt.VerifyImgOnly? && env.rom.img(Contents(d.flash, i)) == None
    ensures r.0 == -5 <==> env.Verifying() && r.0 != 0 && env.Check(Contents(d.flash, i)).Some?
  {
    if env.opt.VerifyNone? then (0, d.counter)
    else match env.Check(Contents(d.flash, i))
      case None => (if env.opt.VerifyCertImg? then -3 else -4, d.counter)
      case Some(v) => if v < d.counter then (-5, d.counter) else (0, v)
  }

  /** The device after selection: a first boot creates image 0's NEWER flag. */
  function AfterSelection(d: Device): Device {
    var s := d.Selected();
    if s.Pick? && s.firstBoot then d.Flagged(0, NEWER_MASK, NEWER) else d
  }

  /** It is the only thing that selection ever writes. */
  lemma FirstBootMarksNewer(d: Device)
    ensures if d.st0.None? && d.st1.None? then AfterSelection(d) == d.(st0 := Some(0x01)) else AfterSelection(d) == d
  {
  }

  function BootOnce(env: Env, d: Device): (Device, Outcome) {
    match d.Selected()
    case NoPick(code) => (d, NoImage(code))
    case Pick(i, _) =>
      var d1 := AfterSelection(d);
      var (code, ver) := Validate(env, d1, i);
      if code < 0 then (d1.Flagged(i, VERIFY_MASK, VERIFY_FAIL), Reset(i))
      else (d1.Flagged(i, VERIFY_MASK, VERIFY_OK).(counter := ver, running := Some(i)), Jump(i))
  }

  /** What a pass may change: a failed one nothing but the failed slot's mark (and a
      first boot's NEWER flag), a successful one nothing but the slot's mark, the
      counter and the running index. */
  lemma PassChangesOnly(env: Env, d: Device)
    ensures var (d', out) := BootOnce(env, d);
            && d'.flash == d.flash
            && match out
               case NoImage(_) => d' == d
               case Reset(i) =>
                 && d'.St(1 - i) == d.St(1 - i) && d'.running == d.running && d'.counter == d.counter
                 && Bad(d'.St(i)) && (d.St(i).Some? ==> d'.St(i).value & !VERIFY_MASK == d.St(i).value & !VERIFY_MASK)
               case Jump(i) =>
                 && d'.St(1 - i) == d.St(1 - i) && d'.running == Some(i)
                 && d'.St(i).Some? && VerifiedOk(d'.St(i).value)
                 && (d.St(i).Some? ==> d'.St(i).value & !VERIFY_MASK == d.St(i).value & !VERIFY_MASK)
                 && (if env.Verifying() then env.Check(Contents(d.flash, i)) == Some(d'.counter) else d'.counter == d.counter)
  {
  }

  /** Slots not yet known to be bad. */
  function Suspects(d: Device): nat {
    (if Bad(d.st0) then 0 else 1) + (if Bad(d.st1) then 0 else 1)
  }

  /** Every pass that ends in a reset condemns one more slot, for good. */
  lemma ResetCondemns(env: Env, d: Device)
    requires BootOnce(env, d).1.Reset?
    ensures var (d', out) := BootOnce(env, d);
            && !Bad(d.St(out.failed)) && Bad(d'.St(out.failed))
            && d'.St(1 - out.failed) == d.St(1 - out.failed)
            && Suspects(d') == Suspects(d) - 1
  {
    var (d', out) := BootOnce(env, d);
    var i := out.failed;
    var b := d'.St(i).value;
    assert b & VERIFY_MASK == VERIFY_FAIL;
  }

  /** Resets followed until the loader jumps or gives up. */
  function BootChain(env: Env, d: Device): (Device, Outcome)
    decreases Suspects(d)
  {
    var (d', out) := BootOnce(env, d);
    if out.Reset? then ResetCondemns(env, d); BootChain(env, d') else (d', out)
  }

  function FailedPasses(env: Env, d: Device): nat
    decreases Suspects(d)
  {
    var (d', out) := BootOnce(env, d);
    if out.Reset? then ResetCondemns(env, d); 1 + FailedPasses(env, d') else 0
  }

  /** From any flag state at all the reset loop ends, after at most two failed
      validations, and never in another reset. */
  lemma {:induction false} ResetLoopEnds(env: Env, d: Device)
    ensures !BootChain(env, d).1.Reset?
    ensures FailedPasses(env, d) <= Suspects(d) <= 2
    decreases Suspects(d)
  {
    var (d', out) := BootOnce(env, d);
    if out.Reset? {
      ResetCondemns(env, d);
      ResetLoopEnds(env, d');
    }
  }

  // ---- The loader itself ----------------------------------------------------

  /** The board as the loader finds it after power-up. */
  class Board {
    var st0: Option<bv8>
    var st1: Option<bv8>
    var running: Option<SlotId>
    var counter: nat
    var flash: seq<byte>
    var fmc: Mapping
    const env: Env

    ghost predicate Valid()
      reads this
    {
      |flash| == FLASH_SIZE
    }

    ghost function Persistent(): Device
      requires Valid()
      reads this
    {
      Device(st0, st1, running, counter, flash)
    }

    constructor (env: Env, d: Device)
      ensures Valid() && Persistent() == d && fmc == UNMAPPED && this.env == env
    {
      this.env := env;
      st0, st1, running, counter, flash := d.st0, d.st1, d.running, d.counter, d.flash;
      fmc := UNMAPPED;
    }

    /** `rom_sys_set_img_flag`. */
    method SetImgFlag(idx: SlotId, mask: bv8, flag: bv8)
      requires Valid()
      modifies this`st0, this`st1
      ensures Valid() && Persistent() == old(Persistent()).Flagged(idx, mask, flag)
    {
      if idx == 0 {
        st0 := SetFlag(st0, mask, flag);
      } else {
        st1 := SetFlag(st1, mask, flag);
      }
    }

    /** `boot_image_find`; a status read can fail. */
    method BootImageFind(err0: bool, err1: bool) returns (result: int, idx: SlotId)
      requires Valid()
      modifies this`st0, this`st1
      ensures Valid()
      ensures var s := Select(if err0 then FoundErr else Read(old(st0)), if err1 then FoundErr else Read(old(st1)));
              && Persistent() == (if s.Pick? then AfterSelection(old(Persistent())) else old(Persistent()))
              && if s.Pick? then result == 0 && idx == s.idx else result == s.code < 0
    {
      if err0 {
        return -2, 0;
      }
      if err1 {
        return -3, 0;
      }
      var img0Found, img1Found := st0.Some?, st1.Some?;
      var img0Stat := if img0Found then st0.value else 0;
      var img1Stat := if img1Found then st1.value else 0;
      result, idx := 0, 0;
      if !img0Found && img1Found {
        return -4, 0;
      }
      if !img0Found && !img1Found {
        SetImgFlag(0, NEWER_MASK, NEWER);
        return 0, 0;
      }
      if img0Found && img0Stat & NEWER_MASK == NEWER {
        if img0Stat & VERIFY_MASK != VERIFY_FAIL && img0Stat & IA_MASK != IA_FAIL {
          return 0, 0;
        }
      }
      if img1Found && img1Stat & NEWER_MASK == NEWER {
        if img1Stat & VERIFY_MASK != VERIFY_FAIL && img1Stat & IA_MASK != IA_FAIL {
          return 0, 1;
        }
      }
      if img0Found && img0Stat & VERIFY_MASK == VERIFY_OK && img0Stat & IA_MASK == IA_OK {
        return 0, 0;
      }
      if img1Found && img1Stat & VERIFY_MASK == VERIFY_OK && img1Stat & IA_MASK == IA_OK {
        return 0, 1;
      }
      return -5, 0;
    }

    /** `image_x_validate`, reading the image through the address mapping. */
    method ImageXValidate(ghost idx: SlotId) returns (code: int)
      requires Valid() && fmc == MappingFor(idx)
      modifies this`counter
      ensures Valid() && code == Validate(env, old(Persistent()), idx).0
      ensures Persistent() == old(Persistent()).(counter := Validate(env, old(Persistent()), idx).1)
    {
      if env.opt.VerifyNone? {
        return 0;
      }
      ReadIsContents(flash, idx);
      var image := ReadLogical(flash, fmc, HEADER_ADDR, IMAGE_LEN);
      var version := 0;
      if env.opt.VerifyCertImg? {
        var ok := env.rom.certImg(image);
        if ok.None? {
          return -3;
        }
        version := ok.value;
      } else {
        var ok := env.rom.img(image);
        if ok.None? {
          return -4;
        }
        version := ok.value;
      }
      // rom_sys_set_fw_ver: an older version is refused, an equal one kept.
      if version < counter {
        return -5;
      }
      if version > counter {
        counter := version;
      }
      return 0;
    }

    /** One pass through `main`. */
    method BootPass() returns (out: Outcome)
      requires Valid()
      modifies this
      ensures Valid() && (Persistent(), out) == BootOnce(env, old(Persistent()))
    {
      fmc := UNMAPPED;  // the reset value
      var ret, idx := BootImageFind(false, false);
      if ret < 0 {
        return NoImage(ret);
      }
      if idx == 1 {
        fmc := IMAGE_1_MAPPING;
      }
      ret := ImageXValidate(idx);
      if ret < 0 {
        SetImgFlag(idx, VERIFY_MASK, VERIFY_FAIL);
        return Reset(idx);
      }
      SetImgFlag(idx, VERIFY_MASK, VERIFY_OK);
      running := Some(idx);
      return Jump(idx);
    }

    /** Power-up: passes through `main` until one does not end in a reset. */
    method PowerUp() returns (out: Outcome)
      requires Valid()
      modifies this
      ensures Valid() && (Persistent(), out) == BootChain(env, old(Persistent()))
      ensures !out.Reset?
    {
      out := BootPass();
      while out.Reset?
        invariant Valid()
        invariant if out.Reset? then BootChain(env, Persistent()) == BootChain(env, old(Persistent()))
                  else (Persistent(), out) == BootChain(env, old(Persistent()))
        decreases out.Reset?, Suspects(Persistent())
      {
        ghost var before := Persistent();
        if BootOnce(env, before).1.Reset? {
          ResetCondemns(env, before);
        }
        out := BootPass();
      }
    }
  }
}
