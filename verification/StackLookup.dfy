/**
 Finding the variable of a stack frame that an address belongs to.
 */
module StackLookup {
  import opened Basics
  import opened FrameDescriptions

  /** Subtraction of words. */
  function Minus(a: nat, b: nat): nat {
    (a - b) % WORD
  }

  /** The end of a variable, as a word. */
  function End(v: StackVar): nat {
    (v.beg + v.size) % WORD
  }

  predicate IsWord(x: nat) {
    x < WORD
  }

  /** The region that is reported: the variable's place, size and name. */
  datatype Region = Region(address: nat, size: nat, namePos: nat, nameLen: nat)

  function RegionOf(addr: nat, offset: nat, v: StackVar): Region {
    Region(Minus(addr, Minus(offset, v.beg)), v.size, v.namePos, v.nameLen)
  }

  /**
   The region that is promised for an offset, inside the variable or not: all of the variable, with
   its name, as far from the address as the variable is from the offset.
   */
  ghost predicate Reports(addr: nat, offset: nat, v: StackVar, r: Region) {
    && r.size == v.size
    && r.namePos == v.namePos
    && r.nameLen == v.nameLen
    && r.address < WORD
    && exists turns: int :: IsAway(addr, offset, v.beg, r.address, turns)
  }

  ghost predicate IsAway(addr: int, offset: int, beg: int, address: int, turns: int) {
    address - addr == beg - offset + turns * WORD
  }

  /** Variable `i` is the first that does not end before the offset. */
  ghost predicate IsFirst(vars: seq<StackVar>, offset: nat, i: nat) {
    && i < |vars|
    && offset <= End(vars[i])
    && forall j :: 0 <= j < i ==> End(vars[j]) < offset
  }

  /** What is reported for an offset into a frame with this description. */
  ghost predicate Located(addr: nat, descr: string, offset: nat, r: Option<Region>) {
    match ReadFrame(descr)
    case None => r.None?
    case Some(vars) =>
      if r.None? then forall j :: 0 <= j < |vars| ==> End(vars[j]) < offset
      else exists i: nat :: IsFirst(vars, offset, i) && Reports(addr, offset, vars[i], r.value)
  }

  method FindInfoForStackVar(addr: nat, frameDescr: string, offset: nat) returns (r: Option<Region>)
    requires IsWord(addr) && IsWord(offset)
    ensures Located(addr, frameDescr, offset, r)
  {
    var ok, vars := ParseFrameDescription(frameDescr);
    if !ok {
      return None;
    }
    ParsedAreVars(frameDescr);
    for i := 0 to |vars|
      invariant forall j :: 0 <= j < i ==> End(vars[j]) < offset
    {
      if offset <= End(vars[i]) {
        assert IsFirst(vars, offset, i);
        ReportsIff(addr, offset, vars[i], RegionOf(addr, offset, vars[i]));
        return Some(RegionOf(addr, offset, vars[i]));
      }
    }
    return None;
  }

  // ------------------------------------------------------------------------
  // When the right variable is found
  // ------------------------------------------------------------------------

  /** A variable of a word's size with at least one byte. */
  predicate IsVar(v: StackVar) {
    0 < v.beg < WORD && 0 < v.size < WORD
  }

  predicate AreVars(vars: seq<StackVar>) {
    forall i :: 0 <= i < |vars| ==> IsVar(vars[i])
  }

  predicate Inside(v: StackVar, offset: nat) {
    v.beg <= offset < v.beg + v.size
  }

  /** What the parser gives are variables. */
  lemma {:induction false} ParsedAreVars(s: string)
    ensures ReadFrame(s).Some? ==> AreVars(ReadFrame(s).value)
  {
    var n := ReadNumber(s, 0);
    VarReaderGivesVars(s);
    ReadVarsGivesVars(VarReader(s), n.end, ToUptr(n.value));
  }

  ghost predicate GivesVars(read: Reader) {
    forall i: nat :: read(i).Some? ==> IsVar(read(i).value.0)
  }

  lemma {:induction false} VarReaderGivesVars(s: string)
    ensures GivesVars(VarReader(s))
  {
    forall i: nat | VarReader(s)(i).Some?
      ensures IsVar(VarReader(s)(i).value.0)
    {
      var beg := ReadNumber(s, i);
      var size := ReadNumber(s, beg.end);
      NumberIsWord(s, i);
      NumberIsWord(s, beg.end);
      NamedIsVar(s, beg, size, ReadNumber(s, size.end));
    }
  }

  lemma {:induction false} NumberIsWord(s: string, i: nat)
    ensures ToUptr(ReadNumber(s, i).value) < WORD
  {
  }

  lemma {:induction false} NamedIsVar(s: string, beg: Number, size: Number, len: Number)
    requires ToUptr(beg.value) < WORD && ToUptr(size.value) < WORD
    ensures ReadNamed(s, beg, size, len).Some? ==> IsVar(ReadNamed(s, beg, size, len).value.0)
  {
  }

  lemma {:induction false} ReadVarsGivesVars(read: Reader, i: nat, n: nat)
    requires GivesVars(read)
    ensures ReadVars(read, i, n).Some? ==> AreVars(ReadVars(read, i, n).value)
    decreases n
  {
    if n > 0 && read(i).Some? {
      ReadVarsGivesVars(read, read(i).value.1, n - 1);
    }
  }

  /** Every offset inside a variable finds that variable. */
  ghost predicate FindsOwner(vars: seq<StackVar>) {
    forall i: nat, offset: nat :: i < |vars| && IsWord(offset) && Inside(vars[i], offset) ==> IsFirst(vars, offset, i)
  }

  /** The variables follow one another with at least one byte between them, and none ends outside the word. */
  predicate Spaced(vars: seq<StackVar>) {
    && (forall i :: 0 <= i < |vars| ==> vars[i].beg + vars[i].size < WORD)
    && (forall i {:trigger vars[i]} :: 0 <= i < |vars| - 1 ==> vars[i].beg + vars[i].size < vars[i + 1].beg)
  }

  lemma {:induction false} SpacedApart(vars: seq<StackVar>, j: nat, i: nat)
    requires Spaced(vars) && j < i < |vars|
    ensures vars[j].beg + vars[j].size < vars[i].beg
    decreases i
  {
    assert vars[i - 1].beg + vars[i - 1].size < vars[i].beg;
    if j < i - 1 {
      SpacedApart(vars, j, i - 1);
    }
  }

  /**
   The search compares with `<=`, so it gives the end of a variable to that variable. Exactly the
   spaced frames are searched correctly.
   */
  lemma {:induction false} FindsOwnerIffSpaced(vars: seq<StackVar>)
    requires AreVars(vars)
    ensures FindsOwner(vars) <==> Spaced(vars)
  {
    if Spaced(vars) {
      forall i: nat, offset: nat | i < |vars| && IsWord(offset) && Inside(vars[i], offset)
        ensures IsFirst(vars, offset, i)
      {
        SpacedFinds(vars, offset, i);
      }
    }
    if FindsOwner(vars) {
      forall i: nat | i < |vars|
        ensures vars[i].beg + vars[i].size < WORD
        ensures i > 0 ==> vars[i - 1].beg + vars[i - 1].size < vars[i].beg
      {
        FoundAtBeginning(vars, i);
        if i > 0 {
          FoundAtBeginning(vars, i - 1);
        }
      }
    }
  }

  /** So it is for every description that the parser accepts. */
  lemma {:induction false} ParsedFindsOwnerIffSpaced(s: string)
    requires ReadFrame(s).Some?
    ensures FindsOwner(ReadFrame(s).value) <==> Spaced(ReadFrame(s).value)
  {
    ParsedAreVars(s);
    FindsOwnerIffSpaced(ReadFrame(s).value);
  }

  lemma {:induction false} SpacedFinds(vars: seq<StackVar>, offset: nat, i: nat)
    requires Spaced(vars) && i < |vars| && Inside(vars[i], offset)
    ensures IsFirst(vars, offset, i)
  {
    forall j: nat | j < i
      ensures End(vars[j]) < offset
    {
      SpacedApart(vars, j, i);
    }
  }

  lemma {:induction false} FoundAtBeginning(vars: seq<StackVar>, i: nat)
    requires AreVars(vars) && FindsOwner(vars) && i < |vars|
    ensures vars[i].beg + vars[i].size < WORD && End(vars[i]) == vars[i].beg + vars[i].size
    ensures IsFirst(vars, vars[i].beg, i)
  {
    assert Inside(vars[i], vars[i].beg) && IsWord(vars[i].beg);
    EndCases(vars[i]);
  }

  lemma {:induction false} EndCases(v: StackVar)
    requires IsVar(v)
    ensures End(v) == if v.beg + v.size < WORD then v.beg + v.size else v.beg + v.size - WORD
  {
  }

  /** Two variables that touch are confused: the first byte of the second is given to the first. */
  lemma {:induction false} TouchingIsConfused()
    ensures var vars := [StackVar(32, 8, 0, 0, 0), StackVar(40, 8, 0, 0, 0)];
            Inside(vars[1], 40) && IsFirst(vars, 40, 0)
  {
  }

  /** The region lies in the frame as the address does: both are as far from the frame's start as their offsets say. */
  lemma {:induction false} RegionInFrame(addr: nat, offset: nat, v: StackVar)
    requires IsWord(addr) && IsWord(offset) && IsVar(v)
    ensures Minus(RegionOf(addr, offset, v).address, v.beg) == Minus(addr, offset)
    ensures Inside(v, offset) && offset - v.beg <= addr ==>
              RegionOf(addr, offset, v).address == addr - (offset - v.beg)
  {
    MinusCases(offset, v.beg);
    var d := Minus(offset, v.beg);
    MinusCases(addr, d);
    MinusCases(Minus(addr, d), v.beg);
    MinusCases(addr, offset);
  }

  /** Exactly one region is promised; it is the one reported. */
  lemma {:induction false} ReportsIff(addr: nat, offset: nat, v: StackVar, r: Region)
    requires IsWord(addr) && IsWord(offset) && IsWord(v.beg)
    ensures Reports(addr, offset, v, r) <==> r == RegionOf(addr, offset, v)
  {
    var d := Minus(offset, v.beg);
    MinusCases(offset, v.beg);
    MinusCases(addr, d);
    var a := Minus(addr, d);
    assert IsAway(addr, offset, v.beg, a, (if addr >= d then 0 else 1) - if offset >= v.beg then 0 else 1);
    forall turns: int | r.address < WORD && IsAway(addr, offset, v.beg, r.address, turns)
      ensures r.address == a
    {
    }
  }

  lemma {:induction false} MinusCases(a: nat, b: nat)
    requires IsWord(a) && IsWord(b)
    ensures Minus(a, b) == if a >= b then a - b else a - b + WORD
  {
  }

  // ------------------------------------------------------------------------
  // From the compiler's variables to the report
  // ------------------------------------------------------------------------

  /** The same spacing, of variables as the compiler knows them. */
  predicate WellLaidOut(vars: seq<Variable>) {
    Spaced(Extents(vars))
  }

  function Extents(vars: seq<Variable>): (ds: seq<StackVar>)
    ensures |ds| == |vars|
    ensures forall i :: 0 <= i < |vars| ==> ds[i].beg == vars[i].beg && ds[i].size == vars[i].size
  {
    seq(|vars|, i requires 0 <= i < |vars| => StackVar(vars[i].beg, vars[i].size, 0, 0, 0))
  }

  /** Variable `k` is the first of the compiler's variables that does not end before the offset. */
  ghost predicate IsFirstVariable(vars: seq<Variable>, offset: nat, k: nat) {
    && k < |vars|
    && offset <= vars[k].beg + vars[k].size
    && forall j :: 0 <= j < k ==> vars[j].beg + vars[j].size < offset
  }

  /** The region of the variable `v`, under its name in the text. */
  ghost predicate IsRegionOf(addr: nat, offset: nat, v: Variable, s: string, r: Region) {
    && r.size == v.size
    && r.nameLen == |v.name| && Stands(s, r.namePos, v.name)
    && r.address < WORD
    && exists turns: int :: IsAway(addr, offset, v.beg, r.address, turns)
  }

  /**
   End to end, for every offset: describe any frame and look the offset up, in a variable, in a
   redzone or anywhere else. What is reported is the whole region and the name of the first
   variable that does not end before the offset.
   */
  lemma {:induction false} LookupReportsFirst(addr: nat, vars: seq<Variable>, k: nat, offset: nat) returns (region: Region)
    requires IsWord(addr) && IsWord(offset)
    requires |vars| <= INT64_MAX && AllExpressible(vars) && IsFirstVariable(vars, offset, k)
    ensures forall r: Option<Region> :: Located(addr, Describe(vars), offset, r) <==> r == Some(region)
    ensures IsRegionOf(addr, offset, vars[k], Describe(vars), region)
  {
    var s := Describe(vars);
    FrameRoundTrip(vars);
    var ds := ReadFrame(s).value;
    EndsAreKept(s, ds, vars);
    MatchAt(s, ds, vars, k);
    FirstIsReported(addr, s, ds, k, offset);
    region := RegionOf(addr, offset, ds[k]);
    ReportsIff(addr, offset, ds[k], region);
  }

  /** And nothing is reported exactly when every variable ends before the offset. */
  lemma {:induction false} LookupReportsNothing(addr: nat, vars: seq<Variable>, offset: nat)
    requires 0 < |vars| <= INT64_MAX && AllExpressible(vars)
    ensures Located(addr, Describe(vars), offset, None) <==>
            forall k :: 0 <= k < |vars| ==> vars[k].beg + vars[k].size < offset
  {
    var s := Describe(vars);
    FrameRoundTrip(vars);
    EndsAreKept(s, ReadFrame(s).value, vars);
  }

  /** The variables that are read end where those that were written end. */
  lemma {:induction false} EndsAreKept(s: string, ds: seq<StackVar>, vars: seq<Variable>)
    requires AllMatch(s, ds, vars) && AllExpressible(vars)
    ensures |ds| == |vars|
    ensures forall k :: 0 <= k < |vars| ==> IsVar(ds[k]) && End(ds[k]) == vars[k].beg + vars[k].size
    decreases |vars|
  {
    if vars != [] {
      EndsAreKept(s, ds[1..], vars[1..]);
      EndCases(ds[0]);
      forall k | 0 <= k < |vars|
        ensures IsVar(ds[k]) && End(ds[k]) == vars[k].beg + vars[k].size
      {
        if k > 0 {
          assert ds[k] == ds[1..][k - 1] && vars[k] == vars[1..][k - 1];
        }
      }
    }
  }

  /**
   In a well laid out frame, for an offset inside variable `k`, that is exactly the region and the
   name of variable `k`.
   */
  lemma {:induction false} LookupFindsVariable(addr: nat, vars: seq<Variable>, k: nat, offset: nat) returns (region: Region)
    requires IsWord(addr) && IsWord(offset)
    requires |vars| <= INT64_MAX && AllExpressible(vars) && WellLaidOut(vars)
    requires k < |vars| && vars[k].beg <= offset < vars[k].beg + vars[k].size
    ensures forall r: Option<Region> :: Located(addr, Describe(vars), offset, r) <==> r == Some(region)
    ensures region.size == vars[k].size && region.address == Minus(addr, offset - vars[k].beg)
    ensures region.nameLen == |vars[k].name| && Stands(Describe(vars), region.namePos, vars[k].name)
  {
    OwnerIsFirst(vars, k, offset);
    region := LookupReportsFirst(addr, vars, k, offset);
    OwnerAddress(addr, offset, vars[k].beg, region.address);
  }

  lemma {:induction false} OwnerIsFirst(vars: seq<Variable>, k: nat, offset: nat)
    requires WellLaidOut(vars) && k < |vars| && vars[k].beg <= offset < vars[k].beg + vars[k].size
    ensures IsFirstVariable(vars, offset, k)
  {
    forall j | 0 <= j < k
      ensures vars[j].beg + vars[j].size < offset
    {
      SpacedApart(Extents(vars), j, k);
    }
  }

  lemma {:induction false} OwnerAddress(addr: nat, offset: nat, beg: nat, address: nat)
    requires IsWord(addr) && IsWord(offset) && IsWord(address) && beg <= offset
    requires exists turns: int :: IsAway(addr, offset, beg, address, turns)
    ensures address == Minus(addr, offset - beg)
  {
    MinusCases(addr, offset - beg);
  }

  lemma {:induction false} FirstIsReported(addr: nat, s: string, ds: seq<StackVar>, k: nat, offset: nat)
    requires IsWord(addr) && IsWord(offset) && ReadFrame(s) == Some(ds) && IsFirst(ds, offset, k) && IsWord(ds[k].beg)
    ensures forall r: Option<Region> :: Located(addr, s, offset, r) <==> r == Some(RegionOf(addr, offset, ds[k]))
  {
    FirstIsUnique(ds, offset, k);
    forall r: Region
      ensures Reports(addr, offset, ds[k], r) <==> r == RegionOf(addr, offset, ds[k])
    {
      ReportsIff(addr, offset, ds[k], r);
    }
  }

  lemma {:induction false} FirstIsUnique(vars: seq<StackVar>, offset: nat, i: nat)
    requires IsFirst(vars, offset, i)
    ensures forall j: nat :: IsFirst(vars, offset, j) ==> j == i
  {
  }
}
