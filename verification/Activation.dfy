/**
 Switching AddressSanitizer off and on again. Deactivation stashes the settings of the runtime
 and disables it; activation overrides the stashed settings from the environment and puts them
 back into force.
 */
module Activation {
  import opened Basics
  import opened MachineIntegers

  type uint8 = x: int | 0 <= x < 0x100
  type uint16 = x: int | 0 <= x < 0x1_0000
  type uint32 = x: int | 0 <= x < 0x1_0000_0000
  type int32 = x: int | -0x8000_0000 <= x < 0x8000_0000

  function ToUint8(b: bool): uint8 {
    if b then 1 else 0
  }

  function ToUint16(x: int): uint16 {
    x % 0x1_0000
  }

  function ToUint32(x: int): uint32 {
    x % 0x1_0000_0000
  }

  function ToInt32(x: int): int32 {
    var low := x % 0x1_0000_0000;
    if low < 0x8000_0000 then low else low - 0x1_0000_0000
  }

  predicate IsPowerOfTwo(x: nat) {
    x <= 1 || (x % 2 == 0 && IsPowerOfTwo(x / 2))
  }

  /** The test that the source makes with a bitwise and. */
  lemma {:induction false} PowerOfTwoByBits(x: nat)
    requires x > 0
    ensures IsPowerOfTwo(x) <==> BitAnd(x, x - 1) == 0
  {
    if x > 1 {
      if x % 2 == 0 {
        PowerOfTwoByBits(x / 2);
        assert (x - 1) / 2 == x / 2 - 1;
      } else {
        assert (x - 1) / 2 == x / 2 > 0;
        AndWithSelf(x / 2);
      }
    }
  }

  lemma {:induction false} AndWithSelf(x: nat)
    ensures BitAnd(x, x) == x
  {
    if x > 0 {
      AndWithSelf(x / 2);
    }
  }

  /**
   What the build fixes: whether a machine word has 64 bits or 32, the scale of the shadow memory,
   and whether the primary allocator can release memory to the system.
   */
  datatype PlatformBase = Platform(wide: bool, shadowScale: nat, releases: bool) {
    predicate Supported() {
      shadowScale <= 7
    }

    /** Arithmetic in a machine word. */
    function Word(x: nat): nat {
      if wide then x % 0x1_0000_0000_0000_0000 else x % 0x1_0000_0000
    }

    /** A number of megabytes and of kilobytes, shifted into a word of bytes. */
    function Megabytes(size: uint32): nat {
      Word(size * 0x10_0000)
    }

    function Kilobytes(size: uint32): nat {
      Word(size * 0x400)
    }

    /** The redzone of the disabled runtime. */
    function DisabledRedzone(): uint16 {
      ToUint16(Max(16, Pow2(shadowScale)))
    }
  }

  type Platform = p: PlatformBase | p.Supported() witness Platform(true, 3, true)

  // ------------------------------------------------------------------------
  // Allocator options, and the allocator that holds them
  // ------------------------------------------------------------------------

  datatype AllocatorOptions = AllocatorOptions(
    quarantineSizeMb: uint32,
    threadLocalQuarantineSizeKb: uint32,
    minRedzone: uint16,
    maxRedzone: uint16,
    mayReturnNull: uint8,
    allocDeallocMismatch: uint8,
    releaseToOsIntervalMs: int32)

  /** The registers of the allocator: quarantine limits in bytes, and the other options as they are. */
  datatype Allocator = Allocator(
    maxSize: nat,
    maxCacheSize: nat,
    minRedzone: uint16,
    maxRedzone: uint16,
    mayReturnNull: bool,
    allocDeallocMismatch: uint8,
    releaseToOsIntervalMs: int32)

  predicate RedzonesPass(o: AllocatorOptions) {
    && 16 <= o.minRedzone <= o.maxRedzone <= 2048
    && IsPowerOfTwo(o.minRedzone)
    && IsPowerOfTwo(o.maxRedzone)
  }

  /** The checks made when options are installed; the process dies if one fails. */
  predicate PassesChecks(p: Platform, o: AllocatorOptions) {
    var size, cacheSize := p.Megabytes(o.quarantineSizeMb), p.Kilobytes(o.threadLocalQuarantineSizeKb);
    && RedzonesPass(o)
    && ((size == 0 && cacheSize == 0) || cacheSize != 0)
  }

  /** The allocator with the options in force. */
  function Installed(p: Platform, o: AllocatorOptions): Allocator {
    Allocator(
      p.Megabytes(o.quarantineSizeMb),
      p.Kilobytes(o.threadLocalQuarantineSizeKb),
      o.minRedzone,
      o.maxRedzone,
      o.mayReturnNull != 0,
      o.allocDeallocMismatch,
      if p.releases then o.releaseToOsIntervalMs else -1)
  }

  /** The options read back from the allocator. */
  function ReadBack(a: Allocator): AllocatorOptions {
    AllocatorOptions(
      ToUint32(a.maxSize / 0x10_0000),
      ToUint32(a.maxCacheSize / 0x400),
      a.minRedzone,
      a.maxRedzone,
      ToUint8(a.mayReturnNull),
      a.allocDeallocMismatch,
      a.releaseToOsIntervalMs)
  }

  // ------------------------------------------------------------------------
  // Flags
  // ------------------------------------------------------------------------

  /** The activation flags. */
  datatype Flags = Flags(
    redzone: int32,
    maxRedzone: int32,
    quarantineSizeMb: int32,
    threadLocalQuarantineSizeKb: int32,
    allocDeallocMismatch: bool,
    poisonHeap: bool,
    allocatorMayReturnNull: bool,
    mallocContextSize: int32,
    releaseToOsIntervalMs: int32)

  /** What `ASAN_ACTIVATION_OPTIONS` assigns, if it is set: a value for some of the flags. */
  datatype Overrides = Overrides(
    redzone: Option<int32>,
    maxRedzone: Option<int32>,
    quarantineSizeMb: Option<int32>,
    threadLocalQuarantineSizeKb: Option<int32>,
    allocDeallocMismatch: Option<bool>,
    poisonHeap: Option<bool>,
    allocatorMayReturnNull: Option<bool>,
    mallocContextSize: Option<int32>,
    releaseToOsIntervalMs: Option<int32>)

  const NO_OVERRIDES := Overrides(None, None, None, None, None, None, None, None, None)

  function Parsed(f: Flags, ov: Overrides): Flags {
    Flags(
      ov.redzone.Or(f.redzone),
      ov.maxRedzone.Or(f.maxRedzone),
      ov.quarantineSizeMb.Or(f.quarantineSizeMb),
      ov.threadLocalQuarantineSizeKb.Or(f.threadLocalQuarantineSizeKb),
      ov.allocDeallocMismatch.Or(f.allocDeallocMismatch),
      ov.poisonHeap.Or(f.poisonHeap),
      ov.allocatorMayReturnNull.Or(f.allocatorMayReturnNull),
      ov.mallocContextSize.Or(f.mallocContextSize),
      ov.releaseToOsIntervalMs.Or(f.releaseToOsIntervalMs))
  }

  /** `AllocatorOptions::SetFrom`. */
  function SetFrom(f: Flags): AllocatorOptions {
    AllocatorOptions(
      ToUint32(f.quarantineSizeMb),
      ToUint32(f.threadLocalQuarantineSizeKb),
      ToUint16(f.redzone),
      ToUint16(f.maxRedzone),
      ToUint8(f.allocatorMayReturnNull),
      ToUint8(f.allocDeallocMismatch),
      f.releaseToOsIntervalMs)
  }

  /** `AllocatorOptions::CopyTo`, with the two settings kept beside the options. */
  function CopyTo(o: AllocatorOptions, mallocContextSize: int32, poisonHeap: bool): Flags {
    Flags(
      o.minRedzone,
      o.maxRedzone,
      ToInt32(o.quarantineSizeMb),
      ToInt32(o.threadLocalQuarantineSizeKb),
      o.allocDeallocMismatch != 0,
      poisonHeap,
      o.mayReturnNull != 0,
      mallocContextSize,
      o.releaseToOsIntervalMs)
  }

  // ------------------------------------------------------------------------
  // What the runtime is meant to do
  // ------------------------------------------------------------------------

  /** The settings that the user has asked for. */
  datatype Settings = Settings(
    quarantineSizeMb: uint32,
    threadLocalQuarantineSizeKb: uint32,
    minRedzone: uint16,
    maxRedzone: uint16,
    mayReturnNull: bool,
    allocDeallocMismatch: bool,
    releaseToOsIntervalMs: int32,
    mallocContextSize: uint32,
    poisonHeap: bool)
  {
    function Options(): AllocatorOptions {
      AllocatorOptions(quarantineSizeMb, threadLocalQuarantineSizeKb, minRedzone, maxRedzone,
                       ToUint8(mayReturnNull), ToUint8(allocDeallocMismatch), releaseToOsIntervalMs)
    }

    /** The same settings with the overridden ones replaced, in the width of each. */
    function With(ov: Overrides): Settings {
      Settings(
        if ov.quarantineSizeMb.Some? then ToUint32(ov.quarantineSizeMb.value) else quarantineSizeMb,
        if ov.threadLocalQuarantineSizeKb.Some? then ToUint32(ov.threadLocalQuarantineSizeKb.value) else threadLocalQuarantineSizeKb,
        if ov.redzone.Some? then ToUint16(ov.redzone.value) else minRedzone,
        if ov.maxRedzone.Some? then ToUint16(ov.maxRedzone.value) else maxRedzone,
        ov.allocatorMayReturnNull.Or(mayReturnNull),
        ov.allocDeallocMismatch.Or(allocDeallocMismatch),
        ov.releaseToOsIntervalMs.Or(releaseToOsIntervalMs),
        if ov.mallocContextSize.Some? then ToUint32(ov.mallocContextSize.value) else mallocContextSize,
        ov.poisonHeap.Or(poisonHeap))
    }
  }

  /** What can be observed of the runtime. */
  datatype Observable = Observable(allocator: Allocator, mallocContextSize: uint32, canPoisonMemory: bool)

  /** The runtime with the settings in force. */
  function InForce(p: Platform, s: Settings): Observable {
    Observable(Installed(p, s.Options()), s.mallocContextSize, s.poisonHeap)
  }

  /** The disabled runtime. Only the release interval is kept. */
  function Disabled(p: Platform, s: Settings): Observable {
    Observable(
      Allocator(0, 0, p.DisabledRedzone(), p.DisabledRedzone(), true, 0, if p.releases then s.releaseToOsIntervalMs else -1),
      1, false)
  }

  /**
   What an override promises, register by register: a flag that is given reaches its register, in
   the width of that, and a register whose flag is not given holds what it held before.
   */
  ghost predicate Overridden(p: Platform, before: Observable, ov: Overrides, after: Observable) {
    var a, a' := before.allocator, after.allocator;
    && a'.maxSize == (if ov.quarantineSizeMb.Some? then p.Word(ov.quarantineSizeMb.value % 0x1_0000_0000 * 0x10_0000) else a.maxSize)
    && a'.maxCacheSize == (if ov.threadLocalQuarantineSizeKb.Some?
                           then p.Word(ov.threadLocalQuarantineSizeKb.value % 0x1_0000_0000 * 0x400) else a.maxCacheSize)
    && a'.minRedzone == (if ov.redzone.Some? then ov.redzone.value % 0x1_0000 else a.minRedzone)
    && a'.maxRedzone == (if ov.maxRedzone.Some? then ov.maxRedzone.value % 0x1_0000 else a.maxRedzone)
    && a'.mayReturnNull == (if ov.allocatorMayReturnNull.Some? then ov.allocatorMayReturnNull.value else a.mayReturnNull)
    && a'.allocDeallocMismatch == (if ov.allocDeallocMismatch == Some(true) then 1
                                   else if ov.allocDeallocMismatch == Some(false) then 0 else a.allocDeallocMismatch)
    && a'.releaseToOsIntervalMs == (if !p.releases then -1
                                    else if ov.releaseToOsIntervalMs.Some? then ov.releaseToOsIntervalMs.value
                                    else a.releaseToOsIntervalMs)
    && after.mallocContextSize == (if ov.mallocContextSize.Some? then ov.mallocContextSize.value % 0x1_0000_0000
                                   else before.mallocContextSize)
    && after.canPoisonMemory == (if ov.poisonHeap.Some? then ov.poisonHeap.value else before.canPoisonMemory)
  }

  /** Overriding the settings is exactly that. */
  lemma {:induction false} OverriddenIff(p: Platform, s: Settings, ov: Overrides, after: Observable)
    ensures Overridden(p, InForce(p, s), ov, after) <==> after == InForce(p, s.With(ov))
  {
  }

  /** An override of one flag changes one register, and no other. */
  lemma {:induction false} OneFlagOneRegister(p: Platform, s: Settings, x: int32, b: bool)
    ensures var o := InForce(p, s);
            var a := o.allocator;
            && InForce(p, s.With(NO_OVERRIDES.(redzone := Some(x)))) == o.(allocator := a.(minRedzone := x % 0x1_0000))
            && InForce(p, s.With(NO_OVERRIDES.(maxRedzone := Some(x)))) == o.(allocator := a.(maxRedzone := x % 0x1_0000))
            && InForce(p, s.With(NO_OVERRIDES.(quarantineSizeMb := Some(x)))) ==
               o.(allocator := a.(maxSize := p.Word(x % 0x1_0000_0000 * 0x10_0000)))
            && InForce(p, s.With(NO_OVERRIDES.(threadLocalQuarantineSizeKb := Some(x)))) ==
               o.(allocator := a.(maxCacheSize := p.Word(x % 0x1_0000_0000 * 0x400)))
            && InForce(p, s.With(NO_OVERRIDES.(allocDeallocMismatch := Some(b)))) ==
               o.(allocator := a.(allocDeallocMismatch := if b then 1 else 0))
            && InForce(p, s.With(NO_OVERRIDES.(allocatorMayReturnNull := Some(b)))) == o.(allocator := a.(mayReturnNull := b))
            && InForce(p, s.With(NO_OVERRIDES.(releaseToOsIntervalMs := Some(x)))) ==
               o.(allocator := a.(releaseToOsIntervalMs := if p.releases then x else -1))
            && InForce(p, s.With(NO_OVERRIDES.(mallocContextSize := Some(x)))) == o.(mallocContextSize := x % 0x1_0000_0000)
            && InForce(p, s.With(NO_OVERRIDES.(poisonHeap := Some(b)))) == o.(canPoisonMemory := b)
  {
  }

  // ------------------------------------------------------------------------
  // Storing and reading back
  // ------------------------------------------------------------------------

  /** A size that has been through a word and back, stored again, fills the word the same. */
  lemma {:induction false} MegabytesRoundTrip(p: Platform, size: uint32)
    ensures p.Megabytes(ToUint32(p.Megabytes(size) / 0x10_0000)) == p.Megabytes(size)
    ensures ToUint32(p.Megabytes(size) / 0x10_0000) == size <==> p.wide || size < 0x1000
  {
    if !p.wide {
      WrapMegabytes(size, size / 0x1000, size % 0x1000);
      WrapMegabytes(size % 0x1000, 0, size % 0x1000);
    }
  }

  lemma {:induction false} WrapMegabytes(size: nat, q: nat, r: nat)
    requires size == 0x1000 * q + r && r < 0x1000
    ensures (size * 0x10_0000) % 0x1_0000_0000 == r * 0x10_0000
  {
  }

  lemma {:induction false} KilobytesRoundTrip(p: Platform, size: uint32)
    ensures p.Kilobytes(ToUint32(p.Kilobytes(size) / 0x400)) == p.Kilobytes(size)
    ensures ToUint32(p.Kilobytes(size) / 0x400) == size <==> p.wide || size < 0x40_0000
  {
    if !p.wide {
      WrapKilobytes(size, size / 0x40_0000, size % 0x40_0000);
      WrapKilobytes(size % 0x40_0000, 0, size % 0x40_0000);
    }
  }

  lemma {:induction false} WrapKilobytes(size: nat, q: nat, r: nat)
    requires size == 0x40_0000 * q + r && r < 0x40_0000
    ensures (size * 0x400) % 0x1_0000_0000 == r * 0x400
  {
  }

  /** Nothing of the options is lost in the registers. */
  predicate Fits(p: Platform, o: AllocatorOptions) {
    && (p.wide || (o.quarantineSizeMb < 0x1000 && o.threadLocalQuarantineSizeKb < 0x40_0000))
    && o.mayReturnNull <= 1
    && (p.releases || o.releaseToOsIntervalMs == -1)
  }

  /** Options read back install the same allocator again, and are the ones installed exactly when those fit. */
  lemma {:induction false} InstalledReadsBack(p: Platform, o: AllocatorOptions)
    ensures Installed(p, ReadBack(Installed(p, o))) == Installed(p, o)
    ensures ReadBack(Installed(p, o)) == o <==> Fits(p, o)
  {
    MegabytesRoundTrip(p, o.quarantineSizeMb);
    KilobytesRoundTrip(p, o.threadLocalQuarantineSizeKb);
  }

  lemma {:induction false} FlagRoundTrip(x: uint32)
    ensures ToUint32(ToInt32(x)) == x
  {
  }

  /**
   Reading the options back, passing them through the flags with overrides, and installing the
   result is the same as overriding the settings that were installed. Nothing that a word or a
   flag cannot hold is lost on the way that had not been lost at the first installation.
   */
  lemma {:induction false} OverrideThroughFlags(p: Platform, s: Settings, ov: Overrides)
    ensures var f := Parsed(CopyTo(ReadBack(Installed(p, s.Options())), ToInt32(s.mallocContextSize), s.poisonHeap), ov);
            && Installed(p, SetFrom(f)) == Installed(p, s.With(ov).Options())
            && (PassesChecks(p, SetFrom(f)) <==> PassesChecks(p, s.With(ov).Options()))
            && ToUint32(f.mallocContextSize) == s.With(ov).mallocContextSize
            && f.poisonHeap == s.With(ov).poisonHeap
            && Overridden(p, InForce(p, s), ov, Observable(Installed(p, SetFrom(f)), ToUint32(f.mallocContextSize), f.poisonHeap))
  {
    var o := ReadBack(Installed(p, s.Options()));
    FlagRoundTrip(s.mallocContextSize);
    MegabytesOverridden(p, s.quarantineSizeMb, ov.quarantineSizeMb);
    KilobytesOverridden(p, s.threadLocalQuarantineSizeKb, ov.threadLocalQuarantineSizeKb);
    var o' := SetFrom(Parsed(CopyTo(o, ToInt32(s.mallocContextSize), s.poisonHeap), ov));
    SameInstallation(p, o', s.With(ov).Options());
    OverriddenIff(p, s, ov, InForce(p, s.With(ov)));
  }

  lemma {:induction false} MegabytesOverridden(p: Platform, size: uint32, ov: Option<int32>)
    ensures p.Megabytes(ToUint32(ov.Or(ToInt32(ToUint32(p.Megabytes(size) / 0x10_0000))))) ==
            p.Megabytes(if ov.Some? then ToUint32(ov.value) else size)
  {
    MegabytesRoundTrip(p, size);
    FlagRoundTrip(ToUint32(p.Megabytes(size) / 0x10_0000));
  }

  lemma {:induction false} KilobytesOverridden(p: Platform, size: uint32, ov: Option<int32>)
    ensures p.Kilobytes(ToUint32(ov.Or(ToInt32(ToUint32(p.Kilobytes(size) / 0x400))))) ==
            p.Kilobytes(if ov.Some? then ToUint32(ov.value) else size)
  {
    KilobytesRoundTrip(p, size);
    FlagRoundTrip(ToUint32(p.Kilobytes(size) / 0x400));
  }

  /** Options that install the same allocator pass the same checks. */
  lemma {:induction false} SameInstallation(p: Platform, o: AllocatorOptions, o': AllocatorOptions)
    requires Installed(p, o) == Installed(p, o')
    ensures PassesChecks(p, o) <==> PassesChecks(p, o')
  {
  }

  lemma {:induction false} PowersPass(n: nat)
    ensures IsPowerOfTwo(Pow2(n))
  {
    if n > 0 {
      PowersPass(n - 1);
      assert Pow2(n) / 2 == Pow2(n - 1);
    }
  }

  /** The redzones are two of the powers of two from 16 to 2048, in order. */
  ghost predicate ArePowers(min: nat, max: nat, m: nat, n: nat) {
    4 <= m <= n <= 11 && min == Pow2(m) && max == Pow2(n)
  }

  /** What the checks are for: redzones of a size the allocator can use, and a cache wherever there is a quarantine. */
  ghost predicate Sound(a: Allocator) {
    && (exists m: nat, n: nat :: ArePowers(a.minRedzone, a.maxRedzone, m, n))
    && (a.maxCacheSize == 0 ==> a.maxSize == 0)
  }

  /** Exactly the options that make a sound allocator pass the checks. */
  lemma {:induction false} PassesIffSound(p: Platform, o: AllocatorOptions)
    ensures PassesChecks(p, o) <==> Sound(Installed(p, o))
  {
    RedzonesPassIff(o);
  }

  lemma {:induction false} RedzonesPassIff(o: AllocatorOptions)
    ensures RedzonesPass(o) <==> exists m: nat, n: nat :: ArePowers(o.minRedzone, o.maxRedzone, m, n)
  {
    LargerPowers();
    if RedzonesPass(o) {
      var m := Exponent(o.minRedzone);
      var n := Exponent(o.maxRedzone);
      if m < 4 {
        Pow2Monotonic(m + 1, 4);
      }
      if n < m {
        Pow2Monotonic(n + 1, m);
      }
      if n > 11 {
        Pow2Monotonic(12, n);
      }
      assert ArePowers(o.minRedzone, o.maxRedzone, m, n);
    }
    forall m: nat, n: nat | ArePowers(o.minRedzone, o.maxRedzone, m, n)
      ensures RedzonesPass(o)
    {
      Pow2Monotonic(4, m);
      Pow2Monotonic(m, n);
      Pow2Monotonic(n, 11);
      PowersPass(m);
      PowersPass(n);
    }
  }

  lemma {:induction false} Exponent(x: nat) returns (n: nat)
    requires x > 0 && IsPowerOfTwo(x)
    ensures x == Pow2(n)
  {
    if x == 1 {
      n := 0;
    } else {
      n := Exponent(x / 2);
      n := n + 1;
    }
  }

  lemma {:induction false} DisabledRedzoneIsPower(p: Platform)
    ensures p.DisabledRedzone() == Max(16, Pow2(p.shadowScale))
    ensures 16 <= p.DisabledRedzone() <= 128 && IsPowerOfTwo(p.DisabledRedzone())
  {
    Pow2Monotonic(p.shadowScale, 7);
    SmallPowers();
    PowersPass(p.shadowScale);
    PowersPass(4);
  }

  lemma {:induction false} SmallPowers()
    ensures Pow2(4) == 16 && Pow2(7) == 128
  {
    assert Pow2(7) == 8 * Pow2(4);
  }

  lemma {:induction false} LargerPowers()
    ensures Pow2(4) == 16 && Pow2(11) == 2048 && Pow2(12) == 4096
  {
    SmallPowers();
    assert Pow2(11) == 16 * Pow2(7);
  }

  /** The options with which the runtime is disabled: no quarantine, the least redzone, no checks of deallocation. */
  function DisabledOptions(p: Platform, o: AllocatorOptions): AllocatorOptions {
    AllocatorOptions(0, 0, p.DisabledRedzone(), p.DisabledRedzone(), 1, 0, o.releaseToOsIntervalMs)
  }

  /** They always pass the checks, and installing them disables the runtime. */
  lemma {:induction false} DisabledPasses(p: Platform, s: Settings)
    ensures var o := DisabledOptions(p, ReadBack(Installed(p, s.Options())));
            PassesChecks(p, o) && Installed(p, o) == Disabled(p, s).allocator
  {
    DisabledRedzoneIsPower(p);
  }

  lemma {:induction false} Pow2Monotonic(m: nat, n: nat)
    requires m <= n
    ensures Pow2(m) <= Pow2(n)
    decreases n - m
  {
    if m < n {
      Pow2Monotonic(m + 1, n);
    }
  }

  // ------------------------------------------------------------------------
  // Runs
  // ------------------------------------------------------------------------

  datatype Event = Deactivate | Activate(ov: Overrides)

  /** Where a run stands: the settings asked for so far, and whether they are in force. */
  datatype Standing = Dead | Alive(settings: Settings, active: bool)

  function After(p: Platform, standing: Standing, e: Event): Standing {
    if standing.Dead? then Dead
    else
      match e
      case Deactivate => if standing.active then Alive(standing.settings, false) else Dead
      case Activate(ov) =>
        if standing.active then standing
        else if PassesChecks(p, standing.settings.With(ov).Options()) then Alive(standing.settings.With(ov), true)
        else Dead
  }

  /** A run from the moment the settings `s` were first installed. */
  function Follow(p: Platform, s: Settings, events: seq<Event>): Standing {
    if events == [] then Alive(s, true)
    else After(p, Follow(p, s, events[..|events| - 1]), events[|events| - 1])
  }

  lemma {:induction false} FollowSnoc(p: Platform, s: Settings, events: seq<Event>, e: Event)
    ensures Follow(p, s, events + [e]) == After(p, Follow(p, s, events), e)
  {
    assert (events + [e])[..|events|] == events;
  }

  /** Two overrides made into one, the later prevailing. */
  function Merge(first: Overrides, second: Overrides): Overrides {
    Overrides(
      if second.redzone.Some? then second.redzone else first.redzone,
      if second.maxRedzone.Some? then second.maxRedzone else first.maxRedzone,
      if second.quarantineSizeMb.Some? then second.quarantineSizeMb else first.quarantineSizeMb,
      if second.threadLocalQuarantineSizeKb.Some? then second.threadLocalQuarantineSizeKb else first.threadLocalQuarantineSizeKb,
      if second.allocDeallocMismatch.Some? then second.allocDeallocMismatch else first.allocDeallocMismatch,
      if second.poisonHeap.Some? then second.poisonHeap else first.poisonHeap,
      if second.allocatorMayReturnNull.Some? then second.allocatorMayReturnNull else first.allocatorMayReturnNull,
      if second.mallocContextSize.Some? then second.mallocContextSize else first.mallocContextSize,
      if second.releaseToOsIntervalMs.Some? then second.releaseToOsIntervalMs else first.releaseToOsIntervalMs)
  }

  /** The overrides of a run in one: those of the activations that met a deactivated runtime. */
  function Total(events: seq<Event>): (t: (Overrides, bool)) {
    if events == [] then (NO_OVERRIDES, true)
    else
      var (ov, active) := Total(events[..|events| - 1]);
      match events[|events| - 1]
      case Deactivate => (ov, false)
      case Activate(more) => if active then (ov, true) else (Merge(ov, more), true)
  }

  /** Whatever its length, a run that survives has had the effect of a single override of the first settings. */
  lemma {:induction false} RunIsOneOverride(p: Platform, s: Settings, events: seq<Event>)
    ensures var standing := Follow(p, s, events);
            standing.Alive? ==>
              && standing.settings == s.With(Total(events).0)
              && standing.active == Total(events).1
  {
    if events == [] {
      WithNothing(s);
    } else {
      var before, last := events[..|events| - 1], events[|events| - 1];
      RunIsOneOverride(p, s, before);
      if last.Activate? {
        WithMerge(s, Total(before).0, last.ov);
      }
    }
  }

  lemma {:induction false} WithNothing(s: Settings)
    ensures s.With(NO_OVERRIDES) == s
  {
  }

  /** One override after another is the merged override. */
  lemma {:induction false} WithMerge(s: Settings, first: Overrides, second: Overrides)
    ensures s.With(first).With(second) == s.With(Merge(first, second))
  {
  }

  lemma {:induction false} WithTwice(s: Settings, ov: Overrides)
    ensures s.With(ov).With(ov) == s.With(ov)
  {
  }

  /** Every activation of the run is made with the same overrides. */
  predicate AlwaysWith(events: seq<Event>, ov: Overrides) {
    forall i :: 0 <= i < |events| && events[i].Activate? ==> events[i].ov == ov
  }

  /**
   With one fixed environment, every activation restores the same settings: those of the first
   installation, overridden once. With no overrides they are those of the first installation.
   */
  lemma {:induction false} ActivationRestores(p: Platform, s: Settings, events: seq<Event>, ov: Overrides)
    requires AlwaysWith(events, ov)
    ensures var standing := Follow(p, s, events);
            standing.Alive? ==>
              && (standing.settings == s || standing.settings == s.With(ov))
              && (ov == NO_OVERRIDES ==> standing.settings == s)
              && (standing.active && Deactivate in events ==> standing.settings == s.With(ov))
  {
    if events != [] {
      var before, last := events[..|events| - 1], events[|events| - 1];
      ActivationRestores(p, s, before, ov);
      WithTwice(s, ov);
      WithNothing(s);
      assert Deactivate in events <==> Deactivate in before || last == Deactivate;
      if Deactivate !in before {
        NeverDeactivated(p, s, before);
      }
    }
  }

  lemma {:induction false} NeverDeactivated(p: Platform, s: Settings, events: seq<Event>)
    requires Deactivate !in events
    ensures Follow(p, s, events) == Alive(s, true)
  {
    if events != [] {
      NeverDeactivated(p, s, events[..|events| - 1]);
      assert events[|events| - 1] in events;
    }
  }

  /** No deactivation follows straight on another. */
  predicate NeverTwiceOff(events: seq<Event>) {
    forall i :: 0 < i < |events| && events[i].Deactivate? ==> !events[i - 1].Deactivate?
  }

  /** Event `i` is an activation that follows on a deactivation. */
  predicate TurnsOn(events: seq<Event>, i: int) {
    0 < i < |events| && events[i].Activate? && events[i - 1].Deactivate?
  }

  /** Each such activation finds settings that pass the checks. */
  ghost predicate AlwaysPasses(p: Platform, s: Settings, events: seq<Event>) {
    forall i :: TurnsOn(events, i) ==> PassesChecks(p, s.With(Total(events[..i + 1]).0).Options())
  }

  /** The runs that the process survives. */
  lemma {:induction false} SurvivesIff(p: Platform, s: Settings, events: seq<Event>)
    ensures Follow(p, s, events).Alive? <==> NeverTwiceOff(events) && AlwaysPasses(p, s, events)
  {
    if events != [] {
      var n := |events| - 1;
      var before, last := events[..n], events[n];
      SurvivesIff(p, s, before);
      RunIsOneOverride(p, s, before);
      NeverTwiceOffSnoc(events);
      AlwaysPassesSnoc(p, s, events);
      if last.Activate? {
        WithMerge(s, Total(before).0, last.ov);
      }
    }
  }

  lemma {:induction false} NeverTwiceOffSnoc(events: seq<Event>)
    requires events != []
    ensures var n := |events| - 1;
            NeverTwiceOff(events) <==>
            NeverTwiceOff(events[..n]) && (n > 0 && events[n].Deactivate? ==> !events[n - 1].Deactivate?)
  {
    var n := |events| - 1;
    assert forall i :: 0 <= i < n ==> events[..n][i] == events[i];
  }

  lemma {:induction false} AlwaysPassesSnoc(p: Platform, s: Settings, events: seq<Event>)
    requires events != []
    ensures var n := |events| - 1;
            AlwaysPasses(p, s, events) <==>
            && AlwaysPasses(p, s, events[..n])
            && (TurnsOn(events, n) ==> PassesChecks(p, s.With(Total(events).0).Options()))
  {
    var n := |events| - 1;
    assert events[..n + 1] == events;
    forall i: nat | i < n
      ensures TurnsOn(events, i) <==> TurnsOn(events[..n], i)
      ensures events[..n][..i + 1] == events[..i + 1]
    {
    }
    assert AlwaysPasses(p, s, events) ==> AlwaysPasses(p, s, events[..n]) by {
      if AlwaysPasses(p, s, events) {
        forall i | TurnsOn(events[..n], i)
          ensures PassesChecks(p, s.With(Total(events[..n][..i + 1]).0).Options())
        {
          assert TurnsOn(events, i);
        }
      }
    }
  }

  /** With one fixed environment, the settings that an activation finds are the first ones, overridden once. */
  lemma {:induction false} FixedTotal(s: Settings, events: seq<Event>, ov: Overrides)
    requires AlwaysWith(events, ov)
    ensures var t := s.With(Total(events).0); t == s || t == s.With(ov)
    ensures TurnsOn(events, |events| - 1) ==> s.With(Total(events).0) == s.With(ov)
  {
    if events == [] {
      WithNothing(s);
    } else {
      var before := events[..|events| - 1];
      FixedTotal(s, before, ov);
      WithTwice(s, ov);
      WithMerge(s, Total(before).0, ov);
    }
  }

  /**
   With one fixed environment, a run survives if and only if no deactivation follows straight on
   another and the overridden settings pass the checks or are never asked for.
   */
  lemma {:induction false} SurvivesWithIff(p: Platform, s: Settings, events: seq<Event>, ov: Overrides)
    requires AlwaysWith(events, ov)
    ensures Follow(p, s, events).Alive? <==>
            && NeverTwiceOff(events)
            && (PassesChecks(p, s.With(ov).Options()) || !exists i :: TurnsOn(events, i))
  {
    SurvivesIff(p, s, events);
    forall i | TurnsOn(events, i)
      ensures s.With(Total(events[..i + 1]).0) == s.With(ov)
    {
      assert TurnsOn(events[..i + 1], i);
      FixedTotal(s, events[..i + 1], ov);
    }
  }

  /**
   Without overrides no activation ends the process: settings that could be installed can be
   restored any number of times, and only a deactivation of a deactivated runtime is fatal.
   */
  lemma {:induction false} RestoringSurvivesIff(p: Platform, s: Settings, events: seq<Event>)
    requires PassesChecks(p, s.Options()) && AlwaysWith(events, NO_OVERRIDES)
    ensures Follow(p, s, events).Alive? <==> NeverTwiceOff(events)
    ensures Follow(p, s, events).Alive? ==> Follow(p, s, events).settings == s
  {
    SurvivesWithIff(p, s, events, NO_OVERRIDES);
    WithNothing(s);
    ActivationRestores(p, s, events, NO_OVERRIDES);
  }

  // ------------------------------------------------------------------------
  // The runtime
  // ------------------------------------------------------------------------

  datatype Outcome = Done | Died

  /** What deactivation puts aside. */
  datatype Stash = Stash(options: AllocatorOptions, mallocContextSize: int32, poisonHeap: bool)

  /** What the runtime has to put aside when it is deactivated. */
  function Stashed(o: Observable): Stash {
    Stash(ReadBack(o.allocator), ToInt32(o.mallocContextSize), o.canPoisonMemory)
  }

  /**
   The runtime is as a run asks: in force, or disabled with what is needed to bring back what was
   in force `before`.
   */
  ghost predicate Reflects(p: Platform, standing: Standing, o: Observable, before: Observable, stash: Stash, deactivated: bool) {
    && standing.Alive?
    && deactivated == !standing.active
    && if standing.active then o == InForce(p, standing.settings)
       else o == Disabled(p, standing.settings) && before == InForce(p, standing.settings) && stash == Stashed(before)
  }

  /** The runtime is off: no quarantine, the least redzone, no checks, and allocations may fail. */
  ghost predicate IsOff(p: Platform, before: Observable, after: Observable) {
    var a := after.allocator;
    && a.maxSize == 0 && a.maxCacheSize == 0
    && a.minRedzone == a.maxRedzone == Max(16, Pow2(p.shadowScale))
    && a.mayReturnNull && a.allocDeallocMismatch == 0
    && a.releaseToOsIntervalMs == before.allocator.releaseToOsIntervalMs
    && after.mallocContextSize == 1 && !after.canPoisonMemory
  }

  /** Deactivation keeps that. */
  lemma {:induction false} DeactivationReflects(p: Platform, standing: Standing, o: Observable, before: Observable, stash: Stash)
    requires Reflects(p, standing, o, before, stash, false)
    ensures var disabled := DisabledOptions(p, ReadBack(o.allocator));
            && PassesChecks(p, disabled)
            && Reflects(p, After(p, standing, Deactivate), Observable(Installed(p, disabled), 1, false), o, Stashed(o), true)
            && IsOff(p, o, Observable(Installed(p, disabled), 1, false))
  {
    DisabledPasses(p, standing.settings);
    DisabledRedzoneIsPower(p);
  }

  function OverriddenStash(stash: Stash, ov: Overrides): Stash {
    var f := Parsed(CopyTo(stash.options, stash.mallocContextSize, stash.poisonHeap), ov);
    Stash(SetFrom(f), f.mallocContextSize, f.poisonHeap)
  }

  /** What an override makes of each part of what was put aside. */
  ghost predicate StashOverridden(before: Stash, ov: Overrides, after: Stash) {
    var o, o' := before.options, after.options;
    && o'.quarantineSizeMb == (if ov.quarantineSizeMb.Some? then ov.quarantineSizeMb.value % 0x1_0000_0000 else o.quarantineSizeMb)
    && o'.threadLocalQuarantineSizeKb == (if ov.threadLocalQuarantineSizeKb.Some?
                                          then ov.threadLocalQuarantineSizeKb.value % 0x1_0000_0000
                                          else o.threadLocalQuarantineSizeKb)
    && o'.minRedzone == (if ov.redzone.Some? then ov.redzone.value % 0x1_0000 else o.minRedzone)
    && o'.maxRedzone == (if ov.maxRedzone.Some? then ov.maxRedzone.value % 0x1_0000 else o.maxRedzone)
    && (o'.mayReturnNull != 0) == (if ov.allocatorMayReturnNull.Some? then ov.allocatorMayReturnNull.value else o.mayReturnNull != 0)
    && (o'.allocDeallocMismatch != 0) == (if ov.allocDeallocMismatch.Some? then ov.allocDeallocMismatch.value
                                          else o.allocDeallocMismatch != 0)
    && o'.releaseToOsIntervalMs == (if ov.releaseToOsIntervalMs.Some? then ov.releaseToOsIntervalMs.value else o.releaseToOsIntervalMs)
    && after.mallocContextSize == (if ov.mallocContextSize.Some? then ov.mallocContextSize.value else before.mallocContextSize)
    && after.poisonHeap == (if ov.poisonHeap.Some? then ov.poisonHeap.value else before.poisonHeap)
  }

  lemma {:induction false} OverrideReachesStash(stash: Stash, ov: Overrides)
    ensures StashOverridden(stash, ov, OverriddenStash(stash, ov))
  {
    FlagRoundTrip(stash.options.quarantineSizeMb);
    FlagRoundTrip(stash.options.threadLocalQuarantineSizeKb);
  }

  /** Installing what is put aside brings the settings into force. */
  predicate Restores(p: Platform, stash: Stash, s: Settings) {
    && Installed(p, stash.options) == Installed(p, s.Options())
    && (PassesChecks(p, stash.options) <==> PassesChecks(p, s.Options()))
    && ToUint32(stash.mallocContextSize) == s.mallocContextSize
    && stash.poisonHeap == s.poisonHeap
  }

  /** Whether the process survives is whether the registers, overridden, would be sound. */
  ghost predicate Decides(p: Platform, before: Observable, ov: Overrides, survives: bool) {
    forall after: Observable :: Overridden(p, before, ov, after) ==> (survives <==> Sound(after.allocator))
  }

  /** And so does activation, if the overridden options pass the checks; it overrides register by register. */
  lemma {:induction false} ActivationReflects(p: Platform, standing: Standing, o: Observable, before: Observable,
                                              stash: Stash, ov: Overrides)
    requires Reflects(p, standing, o, before, stash, true)
    ensures var stash' := OverriddenStash(stash, ov);
            var o' := Observable(Installed(p, stash'.options), ToUint32(stash'.mallocContextSize), stash'.poisonHeap);
            && (PassesChecks(p, stash'.options) <==> After(p, standing, Activate(ov)).Alive?)
            && (PassesChecks(p, stash'.options) ==> Reflects(p, After(p, standing, Activate(ov)), o', before, stash', false))
            && Overridden(p, before, ov, o')
            && Decides(p, before, ov, PassesChecks(p, stash'.options))
  {
    OverrideThroughFlags(p, standing.settings, ov);
    OverrideDecides(p, standing.settings, ov);
  }

  lemma {:induction false} OverrideDecides(p: Platform, s: Settings, ov: Overrides)
    ensures Decides(p, InForce(p, s), ov, PassesChecks(p, s.With(ov).Options()))
  {
    PassesIffSound(p, s.With(ov).Options());
    forall after: Observable | Overridden(p, InForce(p, s), ov, after)
      ensures PassesChecks(p, s.With(ov).Options()) <==> Sound(after.allocator)
    {
      OverriddenIff(p, s, ov, after);
    }
  }

  /** Each of the options is in its register. */
  ghost predicate IsStored(p: Platform, o: AllocatorOptions, a: Allocator) {
    && a.maxSize == p.Word(o.quarantineSizeMb * 0x10_0000)
    && a.maxCacheSize == p.Word(o.threadLocalQuarantineSizeKb * 0x400)
    && a.minRedzone == o.minRedzone
    && a.maxRedzone == o.maxRedzone
    && a.mayReturnNull == (o.mayReturnNull != 0)
    && a.allocDeallocMismatch == o.allocDeallocMismatch
    && a.releaseToOsIntervalMs == (if p.releases then o.releaseToOsIntervalMs else -1)
  }

  /**
   The registers are sound. What is read back from them passes the checks and makes the same
   registers again; it is what was stored exactly when that fits.
   */
  ghost predicate IsReadBack(p: Platform, o: AllocatorOptions, a: Allocator) {
    && Sound(a)
    && PassesChecks(p, ReadBack(a))
    && Installed(p, ReadBack(a)) == a
    && (ReadBack(a) == o <==> Fits(p, o))
  }

  lemma {:induction false} StoredIsReadBack(p: Platform, o: AllocatorOptions)
    ensures IsStored(p, o, Installed(p, o))
    ensures PassesChecks(p, o) ==> IsReadBack(p, o, Installed(p, o))
  {
    InstalledReadsBack(p, o);
    PassesIffSound(p, o);
    SameInstallation(p, ReadBack(Installed(p, o)), o);
  }

  /** The globals of the runtime. */
  class AsanRuntime {
    const platform: Platform
    /** The registers of the allocator. */
    var maxSize: nat
    var maxCacheSize: nat
    var minRedzone: uint16
    var maxRedzone: uint16
    var mayReturnNull: bool
    var allocDeallocMismatch: uint8
    var releaseToOsIntervalMs: int32
    /** `malloc_context_size` and `can_poison_memory`. */
    var mallocContextSize: uint32
    var canPoisonMemory: bool
    /** `asan_deactivated_flags`. */
    var stash: Stash
    /** `asan_is_deactivated`. */
    var isDeactivated: bool

    /** The settings first installed, and everything that was called since. */
    ghost const initial: Settings
    ghost var history: seq<Event>
    /** What could be observed before the last deactivation. */
    ghost var before: Observable

    /** What the registers hold. A primary allocator that cannot release memory says that it never does. */
    function Registers(): Allocator
      reads this
    {
      Allocator(maxSize, maxCacheSize, minRedzone, maxRedzone, mayReturnNull, allocDeallocMismatch,
                if platform.releases then releaseToOsIntervalMs else -1)
    }

    ghost function Observed(): Observable
      reads this
    {
      Observable(Registers(), mallocContextSize, canPoisonMemory)
    }

    /** The settings that the history asks for. */
    ghost function Asked(): Standing
      reads this
    {
      Follow(platform, initial, history)
    }

    /** The runtime is as its history asks. */
    ghost predicate Valid()
      reads this
    {
      Reflects(platform, Asked(), Observed(), before, stash, isDeactivated)
    }

    /** The part of the start of the runtime that installs the settings. */
    constructor (platform: Platform, s: Settings)
      requires PassesChecks(platform, s.Options())
      ensures Valid() && history == [] && initial == s && this.platform == platform && !isDeactivated
      ensures maxSize == platform.Word(s.quarantineSizeMb * 0x10_0000)
      ensures maxCacheSize == platform.Word(s.threadLocalQuarantineSizeKb * 0x400)
      ensures minRedzone == s.minRedzone && maxRedzone == s.maxRedzone
      ensures mayReturnNull == s.mayReturnNull && (allocDeallocMismatch != 0) == s.allocDeallocMismatch
      ensures platform.releases ==> releaseToOsIntervalMs == s.releaseToOsIntervalMs
      ensures mallocContextSize == s.mallocContextSize && canPoisonMemory == s.poisonHeap
    {
      this.platform := platform;
      var allocator := Installed(platform, s.Options());
      maxSize, maxCacheSize := allocator.maxSize, allocator.maxCacheSize;
      minRedzone, maxRedzone := allocator.minRedzone, allocator.maxRedzone;
      mayReturnNull, allocDeallocMismatch := allocator.mayReturnNull, allocator.allocDeallocMismatch;
      releaseToOsIntervalMs := allocator.releaseToOsIntervalMs;
      mallocContextSize, canPoisonMemory := s.mallocContextSize, s.poisonHeap;
      stash := Stash(s.Options(), 0, false);
      isDeactivated := false;
      initial, history, before := s, [], InForce(platform, s);
    }

    /** The checks of the redzones as they are written; the first that fails ends the process. */
    method CheckOptions(options: AllocatorOptions) returns (r: Outcome)
      ensures r.Done? <==> RedzonesPass(options)
    {
      if options.minRedzone < 16 || options.maxRedzone < options.minRedzone || options.maxRedzone > 2048 {
        return Died;
      }
      PowerOfTwoByBits(options.minRedzone);
      PowerOfTwoByBits(options.maxRedzone);
      if BitAnd(options.minRedzone, options.minRedzone - 1) != 0 {
        return Died;
      }
      if BitAnd(options.maxRedzone, options.maxRedzone - 1) != 0 {
        return Died;
      }
      return Done;
    }

    /**
     Stores the options register by register, with the checks in between. What is stored can be
     read back and stored again without a change, and is read back as it was given exactly when it
     fits the registers.
     */
    method ReInitializeAllocator(options: AllocatorOptions) returns (r: Outcome)
      modifies `maxSize, `maxCacheSize, `minRedzone, `maxRedzone, `mayReturnNull, `allocDeallocMismatch, `releaseToOsIntervalMs
      ensures r.Done? <==> PassesChecks(platform, options)
      ensures r.Done? ==> Registers() == Installed(platform, options)
      ensures r.Done? ==> IsStored(platform, options, Registers()) && IsReadBack(platform, options, Registers())
    {
      StoredIsReadBack(platform, options);
      mayReturnNull := options.mayReturnNull != 0;
      if platform.releases {
        releaseToOsIntervalMs := options.releaseToOsIntervalMs;
      }
      r := CheckOptions(options);
      if r.Died? {
        return;
      }
      var size := platform.Megabytes(options.quarantineSizeMb);
      var cacheSize := platform.Kilobytes(options.threadLocalQuarantineSizeKb);
      if !((size == 0 && cacheSize == 0) || cacheSize != 0) {
        return Died;
      }
      maxSize := size;
      maxCacheSize := cacheSize;
      allocDeallocMismatch := options.allocDeallocMismatch;
      minRedzone := options.minRedzone;
      maxRedzone := options.maxRedzone;
    }

    /** A deactivation ends the process exactly when the runtime is already deactivated. */
    method AsanDeactivate() returns (r: Outcome)
      requires Valid()
      modifies this
      ensures history == old(history) + [Deactivate]
      ensures r.Died? <==> old(isDeactivated)
      ensures r.Died? <==> Asked().Dead?
      ensures r.Done? ==> Valid() && isDeactivated && Observed() == Disabled(platform, old(Asked()).settings)
      ensures r.Done? ==> before == old(Observed()) && IsOff(platform, before, Observed())
    {
      ghost var standing := Asked();
      FollowSnoc(platform, initial, history, Deactivate);
      history := history + [Deactivate];
      if isDeactivated {
        return Died;
      }
      DeactivationReflects(platform, standing, Observed(), before, stash);
      r := SwitchOff();
    }

    /** The statements of `AsanDeactivate` behind its check. */
    method SwitchOff() returns (r: Outcome)
      modifies this
      ensures history == old(history) && before == old(Observed()) && stash == Stashed(before)
      ensures var disabled := DisabledOptions(platform, ReadBack(before.allocator));
              && (r.Done? <==> PassesChecks(platform, disabled))
              && (r.Done? ==> isDeactivated && Observed() == Observable(Installed(platform, disabled), 1, false))
    {
      before := Observed();
      stash := Stash(ReadBack(Registers()), ToInt32(mallocContextSize), canPoisonMemory);
      canPoisonMemory := false;
      mallocContextSize := 1;
      r := ReInitializeAllocator(DisabledOptions(platform, stash.options));
      isDeactivated := true;
    }

    /** What was put aside for some settings becomes what restores them overridden. */
    method OverrideFromActivationFlags(ov: Overrides)
      modifies this`stash
      ensures stash == OverriddenStash(old(stash), ov)
      ensures StashOverridden(old(stash), ov, stash)
      ensures forall s: Settings :: old(stash) == Stashed(InForce(platform, s)) ==> Restores(platform, stash, s.With(ov))
    {
      OverrideReachesStash(stash, ov);
      var f := CopyTo(stash.options, stash.mallocContextSize, stash.poisonHeap);
      f := Parsed(f, ov);
      stash := Stash(SetFrom(f), f.mallocContextSize, f.poisonHeap);
      forall s: Settings | old(stash) == Stashed(InForce(platform, s))
        ensures Restores(platform, stash, s.With(ov))
      {
        OverrideThroughFlags(platform, s, ov);
      }
    }

    /** An activation of an active runtime does nothing; otherwise it puts the overridden settings in force. */
    method AsanActivate(ov: Overrides) returns (r: Outcome)
      requires Valid()
      modifies this
      ensures history == old(history) + [Activate(ov)]
      ensures r.Died? <==> Asked().Dead?
      ensures r.Done? ==> Valid() && !isDeactivated
      ensures !old(isDeactivated) ==> r.Done? && Observed() == old(Observed())
      ensures old(isDeactivated) && r.Done? ==> Observed() == InForce(platform, old(Asked()).settings.With(ov))
      ensures old(isDeactivated) && r.Done? ==> Overridden(platform, old(before), ov, Observed())
      ensures old(isDeactivated) ==> Decides(platform, old(before), ov, r.Done?)
    {
      ghost var standing := Asked();
      FollowSnoc(platform, initial, history, Activate(ov));
      history := history + [Activate(ov)];
      if !isDeactivated {
        return Done;
      }
      ActivationReflects(platform, standing, Observed(), before, stash, ov);
      r := SwitchOn(ov);
    }

    /** The statements of `AsanActivate` behind its check. */
    method SwitchOn(ov: Overrides) returns (r: Outcome)
      modifies this
      ensures history == old(history) && before == old(before) && stash == OverriddenStash(old(stash), ov)
      ensures r.Done? <==> PassesChecks(platform, stash.options)
      ensures r.Done? ==>
                && !isDeactivated
                && Observed() ==
                   Observable(Installed(platform, stash.options), ToUint32(stash.mallocContextSize), stash.poisonHeap)
    {
      OverrideFromActivationFlags(ov);
      canPoisonMemory := stash.poisonHeap;
      mallocContextSize := ToUint32(stash.mallocContextSize);
      r := ReInitializeAllocator(stash.options);
      isDeactivated := false;
    }
  }
}
