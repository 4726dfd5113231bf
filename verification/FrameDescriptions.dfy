/**
 The description of a stack frame, a text that the compiler leaves for the runtime: how many
 variables there are, and for each its offset, its size, the length of its label and the label.
 */
module FrameDescriptions {
  import opened Basics

  const INT64_MAX: int := 0x7FFF_FFFF_FFFF_FFFF
  const UINT64_MAX: int := 0xFFFF_FFFF_FFFF_FFFF

  /** The number of values of a word. */
  const WORD: int := UINT64_MAX + 1

  // ------------------------------------------------------------------------
  // Reading a number
  // ------------------------------------------------------------------------

  /** The character at a place of a C string; the terminator stands at its end. */
  function At(s: string, i: nat): char {
    if i < |s| then s[i] else '\0'
  }

  predicate IsSpace(c: char) {
    c == ' ' || c == '\n' || c == '\t' || c == 12 as char || c == '\r' || c == 11 as char
  }

  predicate IsDigit(c: char) {
    '0' <= c <= '9'
  }

  function DigitValue(c: char): (d: nat)
    requires IsDigit(c)
    ensures d < 10
  {
    c as int - '0' as int
  }

  /** A number read from a text, and the place behind it. */
  datatype Number = Number(value: int, end: nat)

  /** The conversion of a 64-bit signed number to an unsigned word. */
  function ToUptr(x: int): nat {
    if x >= 0 then x else if x + UINT64_MAX + 1 >= 0 then x + UINT64_MAX + 1 else 0
  }

  function SkipSpaces(s: string, i: nat): (j: nat)
    ensures i <= j
    decreases |s| - i
  {
    if i < |s| && IsSpace(s[i]) then SkipSpaces(s, i + 1) else i
  }

  /** The digits from place `i` on, behind digits that make `n`. */
  function Digits(s: string, i: nat, n: nat): (r: Number)
    ensures i <= r.end && r.value >= 0
    decreases |s| - i
  {
    if i < |s| && IsDigit(s[i]) then Digits(s, i + 1, 10 * n + DigitValue(s[i])) else Number(n, i)
  }

  predicate IsSign(c: char) {
    c == '+' || c == '-'
  }

  /**
   What `internal_simple_strtoll` is for: the decimal number behind any spaces, brought into the
   range of 64 signed bits. Without digits nothing but the spaces is read.
   */
  function ReadNumber(s: string, i: nat): Number {
    var start := SkipSpaces(s, i);
    var first := if IsSign(At(s, start)) then start + 1 else start;
    var n := Digits(s, first, 0);
    Number(
      if At(s, start) == '-' then -Min(n.value, INT64_MAX + 1) else Min(n.value, INT64_MAX),
      if n.end == first then start else n.end)
  }

  /** `internal_simple_strtoll`, whose sum saturates in 64 unsigned bits at every digit. */
  method SimpleStrtoll(s: string, i: nat) returns (r: Number)
    ensures r == ReadNumber(s, i)
  {
    var p := i;
    while IsSpace(At(s, p))
      invariant SkipSpaces(s, p) == SkipSpaces(s, i)
      decreases |s| - p
    {
      p := p + 1;
    }
    var start, negative, res, haveDigits := p, false, 0, false;
    if At(s, p) == '+' {
      p := p + 1;
    } else if At(s, p) == '-' {
      negative := true;
      p := p + 1;
    }
    ghost var first, exact: nat := p, 0;
    while IsDigit(At(s, p))
      invariant first <= p && haveDigits == (p > first)
      invariant Digits(s, first, 0) == Digits(s, p, exact)
      invariant res == Min(exact, UINT64_MAX)
      decreases |s| - p
    {
      var digit := DigitValue(At(s, p));
      res := if res <= UINT64_MAX / 10 then res * 10 else UINT64_MAX;
      res := if res <= UINT64_MAX - digit then res + digit else UINT64_MAX;
      exact := 10 * exact + digit;
      haveDigits := true;
      p := p + 1;
    }
    var end := if haveDigits then p else start;
    if !negative {
      r := Number(Min(INT64_MAX, res), end);
    } else {
      r := Number(if res > INT64_MAX then -INT64_MAX - 1 else -res, end);
    }
  }

  // ------------------------------------------------------------------------
  // Reading a description
  // ------------------------------------------------------------------------

  /** `StackVarDescr`; the name is a stretch of the description. */
  datatype StackVar = StackVar(beg: nat, size: nat, namePos: nat, nameLen: nat, line: nat)

  /** The first colon from place `i` on. */
  function FindColon(s: string, i: nat): (r: Option<nat>)
    ensures r.Some? ==> i <= r.value < |s| && s[r.value] == ':'
    decreases |s| - i
  {
    if i >= |s| then None else if s[i] == ':' then Some(i) else FindColon(s, i + 1)
  }

  /** What a label of `n` characters at place `p` says: the length of the name, and the line. */
  function ReadLabel(s: string, p: nat, n: nat): (nat, nat) {
    var colon := FindColon(s, p);
    if colon.Some? && colon.value < p + n
    then (colon.value - p, ToUptr(ReadNumber(s, colon.value + 1).value))
    else (n, 0)
  }

  /** The variable whose three numbers have been read, and the place behind it. */
  function ReadNamed(s: string, beg: Number, size: Number, len: Number): Option<(StackVar, nat)> {
    if ToUptr(beg.value) == 0 || ToUptr(size.value) == 0 || At(s, len.end) != ' ' then None
    else
      var p, n := len.end + 1, ToUptr(len.value);
      var (nameLen, line) := ReadLabel(s, p, n);
      Some((StackVar(ToUptr(beg.value), ToUptr(size.value), p, nameLen, line), p + n))
  }

  /** One variable from place `i` on, and the place behind it. */
  function ReadVar(s: string, i: nat): Option<(StackVar, nat)> {
    var beg := ReadNumber(s, i);
    var size := ReadNumber(s, beg.end);
    var len := ReadNumber(s, size.end);
    ReadNamed(s, beg, size, len)
  }

  type Reader = nat -> Option<(StackVar, nat)>

  /** As many variables as `n` from place `i` on, each read by `read`. */
  function ReadVars(read: Reader, i: nat, n: nat): (r: Option<seq<StackVar>>)
    decreases n
  {
    if n == 0 then Some([])
    else
      match read(i)
      case None => None
      case Some((first, next)) => Prepend([first], ReadVars(read, next, n - 1))
  }

  function VarReader(s: string): Reader {
    (i: nat) => ReadVar(s, i)
  }

  /** The variables of a description, or none if it cannot be read. */
  function ReadFrame(s: string): (r: Option<seq<StackVar>>) {
    var n := ReadNumber(s, 0);
    if ToUptr(n.value) == 0 then None else ReadVars(VarReader(s), n.end, ToUptr(n.value))
  }

  /** What is left to read completes what has been read. */
  function Prepend(vars: seq<StackVar>, rest: Option<seq<StackVar>>): Option<seq<StackVar>> {
    if rest.None? then None else Some(vars + rest.value)
  }

  method ParseFrameDescription(s: string) returns (ok: bool, vars: seq<StackVar>)
    ensures ReadFrame(s) == if ok then Some(vars) else None
  {
    vars := [];
    var n := SimpleStrtoll(s, 0);
    var objects := ToUptr(n.value);
    if objects == 0 {
      return false, vars;
    }
    var p, i := n.end, 0;
    PrependNothing(ReadVars(VarReader(s), p, objects));
    while i < objects
      invariant i <= objects
      invariant ReadFrame(s) == Prepend(vars, ReadVars(VarReader(s), p, objects - i))
    {
      var v := ParseVar(s, p);
      if v.None? {
        return false, vars;
      }
      PrependOne(vars, v.value.0, ReadVars(VarReader(s), v.value.1, objects - i - 1));
      vars := vars + [v.value.0];
      p := v.value.1;
      i := i + 1;
    }
    assert vars + [] == vars;
    return true, vars;
  }

  /** The body of the loop: one variable. */
  method ParseVar(s: string, i: nat) returns (r: Option<(StackVar, nat)>)
    ensures r == ReadVar(s, i)
  {
    var beg := SimpleStrtoll(s, i);
    var size := SimpleStrtoll(s, beg.end);
    var len := SimpleStrtoll(s, size.end);
    if ToUptr(beg.value) == 0 || ToUptr(size.value) == 0 || At(s, len.end) != ' ' {
      return None;
    }
    var p, n := len.end + 1, ToUptr(len.value);
    var colonPos := FindColon(s, p);
    var line := 0;
    var nameLen := n;
    if colonPos.Some? && colonPos.value < p + n {
      nameLen := colonPos.value - p;
      var number := SimpleStrtoll(s, colonPos.value + 1);
      line := ToUptr(number.value);
    }
    return Some((StackVar(ToUptr(beg.value), ToUptr(size.value), p, nameLen, line), p + n));
  }

  lemma {:induction false} PrependNothing(rest: Option<seq<StackVar>>)
    ensures Prepend([], rest) == rest
  {
    if rest.Some? {
      assert [] + rest.value == rest.value;
    }
  }

  lemma {:induction false} PrependOne(vars: seq<StackVar>, v: StackVar, rest: Option<seq<StackVar>>)
    ensures Prepend(vars, Prepend([v], rest)) == Prepend(vars + [v], rest)
  {
    if rest.Some? {
      assert vars + ([v] + rest.value) == (vars + [v]) + rest.value;
    }
  }

  // ------------------------------------------------------------------------
  // Writing a description
  // ------------------------------------------------------------------------

  /** A variable as the compiler knows it. */
  datatype Variable = Variable(beg: nat, size: nat, name: string, line: Option<nat>) {
    function Label(): string {
      name + if line.Some? then ":" + Decimal(line.value) else ""
    }

    /** What a description can express: no colon in the name, and numbers within 63 bits. */
    predicate Expressible() {
      && 0 < beg <= INT64_MAX && 0 < size <= INT64_MAX
      && ':' !in name
      && |Label()| <= INT64_MAX
      && (line.Some? ==> line.value <= INT64_MAX)
    }
  }

  function Decimal(v: nat): (d: string)
    ensures |d| > 0
    ensures IsDigit(d[0])
  {
    var last := [(v % 10 + '0' as int) as char];
    if v < 10 then last else Decimal(v / 10) + last
  }

  /** The numbers of a variable, each behind a space, and then its label. */
  function Entry(v: Variable): string {
    " " + Decimal(v.beg) + (" " + Decimal(v.size)) + (" " + Decimal(|v.Label()|)) + (" " + v.Label())
  }

  function Entries(vars: seq<Variable>): string {
    if vars == [] then "" else Entry(vars[0]) + Entries(vars[1..])
  }

  function Describe(vars: seq<Variable>): string {
    Decimal(|vars|) + Entries(vars)
  }

  // ------------------------------------------------------------------------
  // Reading what was written
  // ------------------------------------------------------------------------

  /** The text `t` stands at place `i` of `s`. */
  ghost predicate Stands(s: string, i: nat, t: string)
    decreases |t|
  {
    if t == "" then i <= |s| else i < |s| && s[i] == t[0] && Stands(s, i + 1, t[1..])
  }

  lemma {:induction false} StandsSlice(s: string, i: nat, t: string)
    ensures Stands(s, i, t) <==> i + |t| <= |s| && s[i..i + |t|] == t
    decreases |t|
  {
    if t != "" {
      StandsSlice(s, i + 1, t[1..]);
      if i + |t| <= |s| {
        assert s[i..i + |t|] == [s[i]] + s[i + 1..i + |t|];
      }
    }
  }

  lemma {:induction false} StandsSplit(s: string, i: nat, a: string, b: string)
    ensures Stands(s, i, a + b) <==> Stands(s, i, a) && Stands(s, i + |a|, b)
    decreases |a|
  {
    if a == "" {
      assert a + b == b;
      StandsSlice(s, i, b);
    } else {
      assert (a + b)[1..] == a[1..] + b;
      StandsSplit(s, i + 1, a[1..], b);
    }
  }

  lemma {:induction false} StandsAt(s: string, i: nat, t: string, k: nat)
    requires Stands(s, i, t) && k < |t|
    ensures i + k < |s| && s[i + k] == t[k]
    decreases k
  {
    if k > 0 {
      StandsAt(s, i + 1, t[1..], k - 1);
    }
  }

  lemma {:induction false} DigitsOfDecimal(s: string, i: nat, v: nat)
    requires Stands(s, i, Decimal(v))
    ensures Digits(s, i, 0) == Digits(s, i + |Decimal(v)|, v)
  {
    var d := Decimal(v);
    var last := [(v % 10 + '0' as int) as char];
    if v >= 10 {
      StandsSplit(s, i, Decimal(v / 10), last);
      DigitsOfDecimal(s, i, v / 10);
    }
    StandsAt(s, i, d, |d| - 1);
  }

  /** A number written behind a space, with no digit behind it, is read back, up to the limit of 63 bits. */
  lemma {:induction false} NumberRoundTrip(s: string, i: nat, v: nat)
    requires Stands(s, i, " " + Decimal(v))
    requires !IsDigit(At(s, i + 1 + |Decimal(v)|))
    ensures ReadNumber(s, i) == Number(Min(v, INT64_MAX), i + 1 + |Decimal(v)|)
  {
    var d := Decimal(v);
    StandsSplit(s, i, " ", d);
    StandsAt(s, i, " ", 0);
    StandsAt(s, i + 1, d, 0);
    assert SkipSpaces(s, i) == SkipSpaces(s, i + 1) == i + 1;
    DigitsOfDecimal(s, i + 1, v);
  }

  /** The variable `d` read from `s` is the variable `v`. */
  ghost predicate Matches(s: string, d: StackVar, v: Variable) {
    && d.beg == v.beg && d.size == v.size
    && d.nameLen == |v.name| && Stands(s, d.namePos, v.name)
    && d.line == if v.line.Some? then v.line.value else 0
  }

  /** A label is read back as the name and the line it was made from. */
  lemma {:induction false} LabelRoundTrip(s: string, p: nat, v: Variable)
    requires Stands(s, p, v.Label()) && v.Expressible()
    requires !IsDigit(At(s, p + |v.Label()|))
    ensures Stands(s, p, v.name)
    ensures ReadLabel(s, p, |v.Label()|) == (|v.name|, if v.line.Some? then v.line.value else 0)
  {
    var tail := if v.line.Some? then ":" + Decimal(v.line.value) else "";
    StandsSplit(s, p, v.name, tail);
    NoColon(s, p, v.name);
    if v.line.Some? {
      var q := p + |v.name|;
      StandsSplit(s, q, ":", Decimal(v.line.value));
      StandsAt(s, q, ":", 0);
      LineRoundTrip(s, q + 1, v.line.value);
    }
  }

  /** The search for a colon goes through a name that has none. */
  lemma {:induction false} NoColon(s: string, p: nat, name: string)
    requires Stands(s, p, name) && ':' !in name
    ensures FindColon(s, p) == FindColon(s, p + |name|)
    decreases |name|
  {
    if name != "" {
      assert name[0] in name && forall c :: c in name[1..] ==> c in name;
      NoColon(s, p + 1, name[1..]);
    }
  }

  lemma {:induction false} ColonIsFound(s: string, p: nat, name: string)
    requires Stands(s, p, name) && ':' in name
    ensures FindColon(s, p).Some? && FindColon(s, p).value < p + |name|
    decreases |name|
  {
    if name[0] != ':' {
      assert ':' in name[1..];
      ColonIsFound(s, p + 1, name[1..]);
    }
  }

  /** A name is kept whole exactly when it has no colon; with one, it is cut there. */
  lemma {:induction false} NameIsKeptIffNoColon(s: string, p: nat, v: Variable)
    requires Stands(s, p, v.Label())
    ensures ReadLabel(s, p, |v.Label()|).0 == |v.name| <==> ':' !in v.name
  {
    var tail := if v.line.Some? then ":" + Decimal(v.line.value) else "";
    StandsSplit(s, p, v.name, tail);
    if ':' in v.name {
      ColonIsFound(s, p, v.name);
    } else {
      NoColon(s, p, v.name);
      if v.line.Some? {
        StandsAt(s, p + |v.name|, tail, 0);
      }
    }
  }

  lemma {:induction false} LineRoundTrip(s: string, i: nat, line: nat)
    requires Stands(s, i, Decimal(line)) && !IsDigit(At(s, i + |Decimal(line)|)) && line <= INT64_MAX
    ensures ReadNumber(s, i).value == line
  {
    StandsAt(s, i, Decimal(line), 0);
    DigitsOfDecimal(s, i, line);
  }

  /** The four parts of an entry stand one behind the other. */
  lemma {:induction false} EntryParts(s: string, i: nat, beg: string, size: string, len: string, text: string)
    requires Stands(s, i, beg + size + len + text)
    ensures Stands(s, i, beg) && Stands(s, i + |beg|, size)
    ensures Stands(s, i + |beg| + |size|, len) && Stands(s, i + |beg| + |size| + |len|, text)
  {
    StandsSplit(s, i, beg + size + len, text);
    StandsSplit(s, i, beg + size, len);
    StandsSplit(s, i, beg, size);
  }

  /** A number behind a space and in front of another space is read back. */
  lemma {:induction false} InnerNumber(s: string, i: nat, v: nat, next: string) returns (n: Number)
    requires v <= INT64_MAX
    requires Stands(s, i, " " + Decimal(v)) && Stands(s, i + |" " + Decimal(v)|, " " + next)
    ensures n == ReadNumber(s, i) && n == Number(v, i + |" " + Decimal(v)|)
    ensures At(s, n.end) == ' '
  {
    n := ReadNumber(s, i);
    StandsAt(s, i + |" " + Decimal(v)|, " " + next, 0);
    NumberRoundTrip(s, i, v);
  }

  /** The three numbers of an entry are read back, and the label stands behind them. */
  lemma {:induction false} EntryNumbers(s: string, i: nat, v: Variable) returns (beg: Number, size: Number, len: Number)
    requires Stands(s, i, Entry(v)) && v.Expressible()
    ensures beg == ReadNumber(s, i) && size == ReadNumber(s, beg.end) && len == ReadNumber(s, size.end)
    ensures beg.value == v.beg && size.value == v.size && len.value == |v.Label()|
    ensures At(s, len.end) == ' ' && Stands(s, len.end + 1, v.Label())
    ensures len.end + 1 + |v.Label()| == i + |Entry(v)|
  {
    var b, z, n, text := Decimal(v.beg), Decimal(v.size), Decimal(|v.Label()|), v.Label();
    EntryParts(s, i, " " + b, " " + z, " " + n, " " + text);
    beg := InnerNumber(s, i, v.beg, z);
    size := InnerNumber(s, beg.end, v.size, n);
    len := InnerNumber(s, size.end, |text|, text);
    StandsSplit(s, len.end, " ", text);
  }

  /** The variable `v` is read from place `i` on, and `end` is the place behind it. */
  ghost predicate ReadsAs(s: string, r: Option<(StackVar, nat)>, v: Variable, end: nat) {
    r.Some? && Matches(s, r.value.0, v) && r.value.1 == end
  }

  lemma {:induction false} NamedRoundTrip(s: string, beg: Number, size: Number, len: Number, v: Variable)
    requires v.Expressible()
    requires beg.value == v.beg && size.value == v.size && len.value == |v.Label()|
    requires At(s, len.end) == ' ' && Stands(s, len.end + 1, v.Label())
    requires !IsDigit(At(s, len.end + 1 + |v.Label()|))
    ensures ReadsAs(s, ReadNamed(s, beg, size, len), v, len.end + 1 + |v.Label()|)
  {
    LabelRoundTrip(s, len.end + 1, v);
  }

  /** One variable is read back. */
  lemma {:induction false} EntryRoundTrip(s: string, i: nat, v: Variable)
    requires Stands(s, i, Entry(v)) && v.Expressible()
    requires !IsDigit(At(s, i + |Entry(v)|))
    ensures ReadsAs(s, ReadVar(s, i), v, i + |Entry(v)|)
  {
    var beg, size, len := EntryNumbers(s, i, v);
    NamedRoundTrip(s, beg, size, len, v);
  }

  /** The variables read are those written, one by one. */
  ghost predicate AllMatch(s: string, ds: seq<StackVar>, vars: seq<Variable>) {
    if vars == [] then ds == []
    else ds != [] && Matches(s, ds[0], vars[0]) && AllMatch(s, ds[1..], vars[1..])
  }

  lemma {:induction false} MatchAt(s: string, ds: seq<StackVar>, vars: seq<Variable>, k: nat)
    requires AllMatch(s, ds, vars) && k < |vars|
    ensures |ds| == |vars| && Matches(s, ds[k], vars[k])
    decreases |vars|
  {
    if k > 0 {
      MatchAt(s, ds[1..], vars[1..], k - 1);
    } else if |vars| > 1 {
      MatchAt(s, ds[1..], vars[1..], 0);
    }
  }

  ghost predicate AllRead(s: string, r: Option<seq<StackVar>>, vars: seq<Variable>) {
    r.Some? && AllMatch(s, r.value, vars)
  }

  predicate AllExpressible(vars: seq<Variable>) {
    vars == [] || (vars[0].Expressible() && AllExpressible(vars[1..]))
  }

  /** The reader `read` reads back every variable that stands in `s`. */
  ghost predicate ReadsEntries(s: string, read: Reader) {
    forall i: nat, v: Variable :: Stands(s, i, Entry(v)) && v.Expressible() && !IsDigit(At(s, i + |Entry(v)|)) ==>
      ReadsAs(s, read(i), v, i + |Entry(v)|)
  }

  lemma {:induction false} EntriesRoundTrip(s: string, read: Reader, i: nat, vars: seq<Variable>)
    requires ReadsEntries(s, read) && AllExpressible(vars)
    requires Stands(s, i, Entries(vars)) && i + |Entries(vars)| == |s|
    ensures AllRead(s, ReadVars(read, i, |vars|), vars)
    decreases |vars|
  {
    if vars != [] {
      var next := i + |Entry(vars[0])|;
      StandsSplit(s, i, Entry(vars[0]), Entries(vars[1..]));
      NextIsNoDigit(s, next, vars[1..]);
      EntriesRoundTrip(s, read, next, vars[1..]);
      AllReadCons(s, read, i, next, vars);
    }
  }

  lemma {:induction false} AllReadCons(s: string, read: Reader, i: nat, next: nat, vars: seq<Variable>)
    requires vars != [] && ReadsAs(s, read(i), vars[0], next)
    requires AllRead(s, ReadVars(read, next, |vars| - 1), vars[1..])
    ensures AllRead(s, ReadVars(read, i, |vars|), vars)
  {
    var ds := ReadVars(read, next, |vars| - 1).value;
    assert ([read(i).value.0] + ds)[1..] == ds;
  }

  lemma {:induction false} VarReaderReads(s: string)
    ensures ReadsEntries(s, VarReader(s))
  {
    forall i: nat, v: Variable | Stands(s, i, Entry(v)) && v.Expressible() && !IsDigit(At(s, i + |Entry(v)|))
      ensures ReadsAs(s, VarReader(s)(i), v, i + |Entry(v)|)
    {
      EntryRoundTrip(s, i, v);
    }
  }

  lemma {:induction false} NextIsNoDigit(s: string, i: nat, vars: seq<Variable>)
    requires Stands(s, i, Entries(vars)) && i + |Entries(vars)| == |s|
    ensures !IsDigit(At(s, i))
  {
    if vars != [] {
      StandsAt(s, i, Entries(vars), 0);
    }
  }

  /** The number of variables is read back, and leaves the reader in front of the entries. */
  lemma {:induction false} CountRoundTrip(s: string, n: nat)
    requires 0 < n <= INT64_MAX
    requires Stands(s, 0, Decimal(n)) && !IsDigit(At(s, |Decimal(n)|))
    ensures ReadFrame(s) == ReadVars(VarReader(s), |Decimal(n)|, n)
  {
    StandsAt(s, 0, Decimal(n), 0);
    DigitsOfDecimal(s, 0, n);
    assert ReadNumber(s, 0) == Number(n, |Decimal(n)|);
  }

  lemma {:induction false} AllEntries(s: string, i: nat, vars: seq<Variable>)
    requires Stands(s, i, Entries(vars)) && i + |Entries(vars)| == |s| && AllExpressible(vars)
    ensures AllRead(s, ReadVars(VarReader(s), i, |vars|), vars)
  {
    VarReaderReads(s);
    EntriesRoundTrip(s, VarReader(s), i, vars);
  }

  lemma {:induction false} DescriptionParts(vars: seq<Variable>)
    ensures var s, n := Describe(vars), Decimal(|vars|);
            && Stands(s, 0, n) && !IsDigit(At(s, |n|))
            && Stands(s, |n|, Entries(vars)) && |n| + |Entries(vars)| == |s|
  {
    var s, n := Describe(vars), Decimal(|vars|);
    StandsSlice(s, 0, s);
    StandsSplit(s, 0, n, Entries(vars));
    NextIsNoDigit(s, |n|, vars);
  }

  /** The description of any nonempty frame is read back, variable by variable. */
  lemma {:induction false} FrameRoundTrip(vars: seq<Variable>)
    requires 0 < |vars| <= INT64_MAX && AllExpressible(vars)
    ensures AllRead(Describe(vars), ReadFrame(Describe(vars)), vars)
  {
    DescriptionParts(vars);
    CountRoundTrip(Describe(vars), |vars|);
    AllEntries(Describe(vars), |Decimal(|vars|)|, vars);
  }

  // ------------------------------------------------------------------------
  // What is read from any text
  // ------------------------------------------------------------------------

  ghost predicate IsBlank(text: string) {
    forall i :: 0 <= i < |text| ==> text[i] == ' ' || 9 <= text[i] as int <= 13
  }

  ghost predicate IsZeros(text: string) {
    forall i :: 0 <= i < |text| ==> text[i] == '0'
  }

  /** The number brought into 64 signed bits. */
  function Clamp(x: int): int {
    if x < -INT64_MAX - 1 then -INT64_MAX - 1 else if x > INT64_MAX then INT64_MAX else x
  }

  function Signed(sign: string, x: int): int {
    if sign == "-" then -x else x
  }

  /** Numbers are written in the usual way. */
  lemma {:induction false} DecimalSamples()
    ensures Decimal(0) == "0" && Decimal(9) == "9" && Decimal(10) == "10" && Decimal(4096) == "4096"
  {
    assert Decimal(4) == "4" && Decimal(40) == "40";
    assert Decimal(409) == "409";
  }

  lemma {:induction false} BlanksAreSkipped(s: string, i: nat, text: string)
    requires Stands(s, i, text) && IsBlank(text)
    ensures SkipSpaces(s, i) == SkipSpaces(s, i + |text|)
    decreases |text|
  {
    if text != "" {
      assert text[0] == ' ' || 9 <= text[0] as int <= 13;
      BlankTail(text);
      BlanksAreSkipped(s, i + 1, text[1..]);
    }
  }

  lemma {:induction false} BlankTail(text: string)
    requires text != ""
    ensures IsBlank(text) ==> IsBlank(text[1..])
    ensures IsZeros(text) ==> IsZeros(text[1..])
  {
  }

  lemma {:induction false} ZerosAreNothing(s: string, i: nat, text: string)
    requires Stands(s, i, text) && IsZeros(text)
    ensures Digits(s, i, 0) == Digits(s, i + |text|, 0)
    decreases |text|
  {
    if text != "" {
      assert text[0] == '0';
      BlankTail(text);
      ZerosAreNothing(s, i + 1, text[1..]);
    }
  }

  /**
   Every way to write a number: blanks, a sign or none, zeros in front, and its digits. It is read
   whole, whatever its size, and brought into 64 signed bits.
   */
  lemma {:induction false} NumberIsRead(s: string, i: nat, blanks: string, sign: string, zeros: string, v: nat)
    requires IsBlank(blanks) && (sign == "" || sign == "+" || sign == "-") && IsZeros(zeros)
    requires Stands(s, i, blanks + (sign + (zeros + Decimal(v))))
    requires !IsDigit(At(s, i + |blanks| + |sign| + |zeros| + |Decimal(v)|))
    ensures ReadNumber(s, i) ==
            Number(Clamp(Signed(sign, v)), i + |blanks| + |sign| + |zeros| + |Decimal(v)|)
  {
    var start := i + |blanks|;
    var first := start + |sign|;
    StandsSplit(s, i, blanks, sign + (zeros + Decimal(v)));
    StandsSplit(s, start, sign, zeros + Decimal(v));
    StandsSplit(s, first, zeros, Decimal(v));
    BlanksAreSkipped(s, i, blanks);
    FirstDigit(s, first, zeros, v);
    SignIsSeen(s, start, sign);
    ZerosAreNothing(s, first, zeros);
    DigitsOfDecimal(s, first + |zeros|, v);
  }

  lemma {:induction false} FirstDigit(s: string, i: nat, zeros: string, v: nat)
    requires IsZeros(zeros) && Stands(s, i, zeros) && Stands(s, i + |zeros|, Decimal(v))
    ensures IsDigit(At(s, i))
  {
    if zeros == "" {
      StandsAt(s, i, Decimal(v), 0);
    } else {
      StandsAt(s, i, zeros, 0);
    }
  }

  lemma {:induction false} SignIsSeen(s: string, i: nat, sign: string)
    requires sign == "" || sign == "+" || sign == "-"
    requires Stands(s, i, sign) && (sign == "" ==> !IsSpace(At(s, i)) && !IsSign(At(s, i)))
    ensures SkipSpaces(s, i) == i
    ensures IsSign(At(s, i)) <==> sign != ""
    ensures At(s, i) == '-' <==> sign == "-"
  {
    if sign != "" {
      StandsAt(s, i, sign, 0);
    }
  }

  /** Where no digit follows the blanks and the sign, nothing but the blanks is read. */
  lemma {:induction false} NoNumberIsRead(s: string, i: nat, blanks: string, sign: string)
    requires IsBlank(blanks) && (sign == "" || sign == "+" || sign == "-")
    requires Stands(s, i, blanks + sign) && !IsDigit(At(s, i + |blanks| + |sign|))
    requires sign == "" ==> !IsSpace(At(s, i + |blanks|)) && !IsSign(At(s, i + |blanks|))
    ensures ReadNumber(s, i) == Number(0, i + |blanks|)
  {
    StandsSplit(s, i, blanks, sign);
    BlanksAreSkipped(s, i, blanks);
    SignIsSeen(s, i + |blanks|, sign);
  }

  /** The word `u` and the number `x` have the same 64 bits. */
  ghost predicate SameWord(x: int, u: nat) {
    u < WORD && exists q: int :: Congruent(x, u, q)
  }

  ghost predicate Congruent(x: int, u: int, q: int) {
    u == x + q * WORD
  }

  lemma {:induction false} ToUptrIff(x: int, u: nat)
    requires -INT64_MAX - 1 <= x <= INT64_MAX
    ensures SameWord(x, u) <==> u == ToUptr(x)
  {
    assert Congruent(x, ToUptr(x), if x < 0 then 1 else 0);
  }

  /** The label of `n` characters at `p` has a name of `nameLen` characters and the line. */
  ghost predicate IsLabel(s: string, p: nat, n: nat, nameLen: nat, line: nat) {
    && nameLen <= n
    && (forall j :: p <= j < p + nameLen && j < |s| ==> s[j] != ':')
    && (if nameLen < n && At(s, p + nameLen) == ':' then SameWord(ReadNumber(s, p + nameLen + 1).value, line)
        else nameLen == n && line == 0)
  }

  lemma {:induction false} FindColonIsFirst(s: string, i: nat)
    ensures var r := FindColon(s, i);
            if r.Some? then i <= r.value < |s| && s[r.value] == ':' && forall j :: i <= j < r.value ==> s[j] != ':'
            else forall j :: i <= j < |s| ==> s[j] != ':'
    decreases |s| - i
  {
    if i < |s| && s[i] != ':' {
      FindColonIsFirst(s, i + 1);
    }
  }

  lemma {:induction false} NumberIsSigned(s: string, i: nat)
    ensures -INT64_MAX - 1 <= ReadNumber(s, i).value <= INT64_MAX
  {
  }

  lemma {:induction false} LabelIff(s: string, p: nat, n: nat, nameLen: nat, line: nat)
    ensures IsLabel(s, p, n, nameLen, line) <==> ReadLabel(s, p, n) == (nameLen, line)
  {
    FindColonIsFirst(s, p);
    var colon := FindColon(s, p);
    NumberIsSigned(s, p + nameLen + 1);
    ToUptrIff(ReadNumber(s, p + nameLen + 1).value, line);
  }

  /**
   The variable `v` is described from place `i` to place `next`: three numbers, of which the first
   two are not zero, one blank and the label.
   */
  ghost predicate IsDescribed(s: string, i: nat, v: StackVar, next: nat) {
    var beg := ReadNumber(s, i);
    var size := ReadNumber(s, beg.end);
    var len := ReadNumber(s, size.end);
    && SameWord(beg.value, v.beg) && v.beg != 0
    && SameWord(size.value, v.size) && v.size != 0
    && At(s, len.end) == ' '
    && v.namePos == len.end + 1
    && next >= v.namePos && SameWord(len.value, next - v.namePos)
    && IsLabel(s, v.namePos, next - v.namePos, v.nameLen, v.line)
  }

  /** Exactly the variables that are described are read, from any text. */
  lemma {:induction false} ReadVarIff(s: string, i: nat, v: StackVar, next: nat)
    ensures ReadVar(s, i) == Some((v, next)) <==> IsDescribed(s, i, v, next)
  {
    var beg := ReadNumber(s, i);
    var size := ReadNumber(s, beg.end);
    var len := ReadNumber(s, size.end);
    NumberIsSigned(s, i);
    NumberIsSigned(s, beg.end);
    NumberIsSigned(s, size.end);
    ToUptrIff(beg.value, v.beg);
    ToUptrIff(size.value, v.size);
    if next >= v.namePos {
      ToUptrIff(len.value, next - v.namePos);
      LabelIff(s, v.namePos, next - v.namePos, v.nameLen, v.line);
    }
  }

  /** The variables stand one behind the other, from each of the places to the next. */
  ghost predicate IsChain(s: string, places: seq<nat>, vars: seq<StackVar>) {
    && |places| == |vars| + 1
    && forall k :: 0 <= k < |vars| ==> IsDescribed(s, places[k], vars[k], places[k + 1])
  }

  ghost predicate ChainFrom(s: string, i: nat, places: seq<nat>, vars: seq<StackVar>) {
    IsChain(s, places, vars) && places[0] == i
  }

  /** The same, as a reader sees it. */
  ghost predicate Follows(read: Reader, places: seq<nat>, vars: seq<StackVar>) {
    && |places| == |vars| + 1
    && forall k :: 0 <= k < |vars| ==> read(places[k]) == Some((vars[k], places[k + 1]))
  }

  lemma {:induction false} FollowsIff(s: string, places: seq<nat>, vars: seq<StackVar>)
    ensures Follows(VarReader(s), places, vars) <==> IsChain(s, places, vars)
  {
    if |places| == |vars| + 1 {
      forall k | 0 <= k < |vars|
        ensures VarReader(s)(places[k]) == Some((vars[k], places[k + 1])) <==> IsDescribed(s, places[k], vars[k], places[k + 1])
      {
        ReadVarIff(s, places[k], vars[k], places[k + 1]);
      }
    }
  }

  lemma {:induction false} FollowedIsRead(read: Reader, places: seq<nat>, vars: seq<StackVar>)
    requires Follows(read, places, vars)
    ensures ReadVars(read, places[0], |vars|) == Some(vars)
    decreases |vars|
  {
    if vars != [] {
      assert read(places[0]) == Some((vars[0], places[1]));
      forall k | 0 <= k < |vars[1..]|
        ensures read(places[1..][k]) == Some((vars[1..][k], places[1..][k + 1]))
      {
        assert read(places[k + 1]) == Some((vars[k + 1], places[k + 2]));
      }
      FollowedIsRead(read, places[1..], vars[1..]);
      assert [vars[0]] + vars[1..] == vars;
    }
  }

  lemma {:induction false} ReadIsFollowed(read: Reader, i: nat, n: nat) returns (places: seq<nat>)
    requires ReadVars(read, i, n).Some?
    ensures var vars := ReadVars(read, i, n).value; |vars| == n && Follows(read, places, vars) && places[0] == i
    decreases n
  {
    if n == 0 {
      places := [i];
    } else {
      var (first, next) := read(i).value;
      var tail := ReadIsFollowed(read, next, n - 1);
      places := [i] + tail;
      FollowsCons(read, i, first, tail, ReadVars(read, next, n - 1).value);
    }
  }

  lemma {:induction false} FollowsCons(read: Reader, i: nat, v: StackVar, places: seq<nat>, vars: seq<StackVar>)
    requires Follows(read, places, vars) && read(i) == Some((v, places[0]))
    ensures Follows(read, [i] + places, [v] + vars)
  {
    forall k | 0 <= k < |[v] + vars|
      ensures read(([i] + places)[k]) == Some((([v] + vars)[k], ([i] + places)[k + 1]))
    {
      if k > 0 {
        assert read(places[k - 1]) == Some((vars[k - 1], places[k]));
      }
    }
  }

  /**
   Exactly the texts that count their variables, not zero of them, and then describe as many, one
   behind the other, are accepted; and exactly those variables are read.
   */
  lemma {:induction false} ReadFrameIff(s: string, vars: seq<StackVar>)
    ensures ReadFrame(s) == Some(vars) <==>
            && vars != []
            && SameWord(ReadNumber(s, 0).value, |vars|)
            && exists places :: ChainFrom(s, ReadNumber(s, 0).end, places, vars)
  {
    var n := ReadNumber(s, 0);
    NumberIsSigned(s, 0);
    ToUptrIff(n.value, |vars|);
    ToUptrIff(n.value, ToUptr(n.value));
    forall places | ChainFrom(s, n.end, places, vars)
      ensures ReadVars(VarReader(s), n.end, |vars|) == Some(vars)
    {
      FollowsIff(s, places, vars);
      FollowedIsRead(VarReader(s), places, vars);
    }
    if ReadFrame(s) == Some(vars) {
      var places := ReadIsFollowed(VarReader(s), n.end, ToUptr(n.value));
      FollowsIff(s, places, vars);
      assert ChainFrom(s, n.end, places, vars);
    }
  }
}
