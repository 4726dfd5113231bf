/**
 The escaped strings that `ConsumeRandomLengthString` reads: a doubled backslash stands for one
 backslash, and a backslash followed by anything else ends the string.
 */
module EscapedStrings {
  import opened Basics
  import opened Bytes

  const BACKSLASH: byte := 92

  /** The result of reading a string: its text, and how many bytes it took off the front. */
  datatype Reading = Reading(text: seq<byte>, used: nat)

  /** The encoding of one character. */
  function Token(c: byte): seq<byte> {
    if c == BACKSLASH then [BACKSLASH, BACKSLASH] else [c]
  }

  /** The data goes on with a character: anything but a backslash, or two backslashes. */
  predicate StartsWithToken(w: seq<byte>) {
    w != [] && (w[0] != BACKSLASH || (|w| > 1 && w[1] == BACKSLASH))
  }

  /** Reading a string of at most `maxLength` characters from the front of `w`. */
  function ReadString(w: seq<byte>, maxLength: nat): (r: Reading)
    ensures r.used <= |w|
    decreases |w|
  {
    if maxLength == 0 || w == [] then Reading([], 0)
    else if StartsWithToken(w) then
      var n := |Token(w[0])|;
      var tail := ReadString(w[n..], maxLength - 1);
      Reading([w[0]] + tail.text, n + tail.used)
    else if |w| == 1 then Reading(w, 1)
    else Reading([], 2)
  }

  /** The inverse of reading: each character by its token. */
  function Escape(s: seq<byte>): (e: seq<byte>)
    ensures |s| <= |e| <= 2 * |s|
  {
    if s == [] then [] else Token(s[0]) + Escape(s[1..])
  }

  lemma {:induction false} EscapeConcat(s: seq<byte>, t: seq<byte>)
    ensures Escape(s + t) == Escape(s) + Escape(t)
  {
    if s == [] {
      assert s + t == t;
    } else {
      assert (s + t)[1..] == s[1..] + t;
      EscapeConcat(s[1..], t);
    }
  }

  /** How a reading came to its end. */
  datatype Stop = AtLimit | AtTerminator(x: byte) | AtEnd | AtLoneBackslash {
    /** The circumstances under which a string `text` stops so, on `left` remaining bytes. */
    ghost predicate Fits(text: seq<byte>, maxLength: nat, left: nat) {
      match this
      case AtLimit => |text| == maxLength
      case AtTerminator(x) => |text| < maxLength && x != BACKSLASH
      case AtEnd => |text| < maxLength && left == 0
      case AtLoneBackslash => 0 < |text| <= maxLength && left == 0 && text[|text| - 1] == BACKSLASH
    }
  }

  /** The characters of `text` that are spelled by whole tokens. */
  function Whole(text: seq<byte>, stop: Stop): seq<byte> {
    if stop.AtLoneBackslash? && text != [] then text[..|text| - 1] else text
  }

  /** The bytes read after the last whole token. */
  function Ending(stop: Stop): seq<byte> {
    match stop
    case AtTerminator(x) => [BACKSLASH, x]
    case AtLoneBackslash => [BACKSLASH]
    case _ => []
  }

  /**
   The bytes that spell `text` up to the stop: its encoding, with the terminator if there is one,
   or with the last backslash standing alone.
   */
  function Spelling(text: seq<byte>, stop: Stop): seq<byte> {
    Escape(Whole(text, stop)) + Ending(stop)
  }

  lemma {:induction false} Associative(a: seq<byte>, b: seq<byte>, c: seq<byte>)
    ensures (a + b) + c == a + (b + c)
  {
  }

  /** The reading `tail` after the characters `s` have been read from `n` bytes. */
  function Following(s: seq<byte>, n: nat, tail: Reading): Reading {
    Reading(s + tail.text, n + tail.used)
  }

  /** Reading goes through the bytes `e` as the characters `s`, whatever follows. */
  ghost predicate ReadsThrough(e: seq<byte>, s: seq<byte>) {
    forall w: seq<byte>, maxLength: nat :: |s| <= maxLength ==>
      ReadString(e + w, maxLength) == Following(s, |e|, ReadString(w, maxLength - |s|))
  }

  lemma {:induction false} ReadsThroughEscape(s: seq<byte>)
    ensures ReadsThrough(Escape(s), s)
  {
    if s == [] {
      ReadsThroughNothing();
    } else {
      ReadsThroughEscape(s[1..]);
      ReadsThroughToken(s[0], Escape(s[1..]), s[1..]);
      assert s == [s[0]] + s[1..];
    }
  }

  lemma {:induction false} ReadsThroughNothing()
    ensures ReadsThrough([], [])
  {
    forall w: seq<byte>, maxLength: nat
      ensures ReadString([] + w, maxLength) == Following([], 0, ReadString(w, maxLength))
    {
      assert [] + w == w;
      assert [] + ReadString(w, maxLength).text == ReadString(w, maxLength).text;
    }
  }

  lemma {:induction false} ReadsThroughToken(c: byte, e: seq<byte>, s: seq<byte>)
    requires ReadsThrough(e, s)
    ensures ReadsThrough(Token(c) + e, [c] + s)
  {
    forall w: seq<byte>, maxLength: nat | 1 + |s| <= maxLength
      ensures ReadString((Token(c) + e) + w, maxLength) ==
              Following([c] + s, |Token(c) + e|, ReadString(w, maxLength - 1 - |s|))
    {
      Associative(Token(c), e, w);
      ReadTokenCons(c, e + w, maxLength - 1);
      Associative([c], s, ReadString(w, maxLength - 1 - |s|).text);
    }
  }

  /** Reading goes through whole tokens. */
  lemma {:induction false} ReadEscaped(s: seq<byte>, w: seq<byte>, maxLength: nat)
    requires |s| <= maxLength
    ensures ReadString(Escape(s) + w, maxLength) == Following(s, |Escape(s)|, ReadString(w, maxLength - |s|))
  {
    ReadsThroughEscape(s);
  }

  lemma {:induction false} ReadTokenCons(c: byte, w: seq<byte>, maxLength: nat)
    ensures var tail := ReadString(w, maxLength);
            ReadString(Token(c) + w, maxLength + 1) == Reading([c] + tail.text, |Token(c)| + tail.used)
  {
    assert (Token(c) + w)[|Token(c)|..] == w;
  }

  /** The whole tokens at the front of the data, up to the limit. */
  lemma {:induction false} WholeTokens(w: seq<byte>, maxLength: nat) returns (s: seq<byte>, w': seq<byte>)
    ensures w == Escape(s) + w' && |s| <= maxLength
    ensures |s| == maxLength || !StartsWithToken(w')
    decreases |w|
  {
    if maxLength == 0 || !StartsWithToken(w) {
      s, w' := [], w;
    } else {
      var c, n := w[0], |Token(w[0])|;
      var t;
      t, w' := WholeTokens(w[n..], maxLength - 1);
      s := [c] + t;
      assert s[1..] == t && w == Token(c) + w[n..];
      Associative(Token(c), Escape(t), w');
    }
  }

  /** Every reading has taken a spelling of its text, and stopped for the reason that goes with it. */
  lemma {:induction false} ReadingSpells(w: seq<byte>, maxLength: nat) returns (stop: Stop)
    ensures var r := ReadString(w, maxLength);
            w[..r.used] == Spelling(r.text, stop) && stop.Fits(r.text, maxLength, |w| - r.used)
  {
    var s, w' := WholeTokens(w, maxLength);
    ReadEscaped(s, w', maxLength);
    stop := EndingOf(w', maxLength - |s|);
    var tail := ReadString(w', maxLength - |s|);
    assert Whole(s + tail.text, stop) == s;
    SplitPrefix(Escape(s), w', tail.used);
  }

  lemma {:induction false} SplitPrefix(a: seq<byte>, b: seq<byte>, k: nat)
    requires k <= |b|
    ensures (a + b)[..|a| + k] == a + b[..k]
  {
  }

  /** What is read where no token follows. */
  lemma {:induction false} EndingOf(w: seq<byte>, maxLength: nat) returns (stop: Stop)
    requires maxLength == 0 || !StartsWithToken(w)
    ensures var r := ReadString(w, maxLength);
            && w[..r.used] == Ending(stop)
            && r.text == (if stop.AtLoneBackslash? then [BACKSLASH] else [])
            && stop.Fits(r.text, maxLength, |w| - r.used)
  {
    stop := if maxLength == 0 then AtLimit
            else if w == [] then AtEnd
            else if |w| == 1 then AtLoneBackslash
            else AtTerminator(w[1]);
    assert |w| == 1 ==> w == [w[0]];
  }

  /** And every spelling is read back: the text and the stop determine the reading. */
  lemma {:induction false} SpelledIsRead(text: seq<byte>, stop: Stop, rest: seq<byte>, maxLength: nat)
    requires stop.Fits(text, maxLength, |rest|)
    ensures ReadString(Spelling(text, stop) + rest, maxLength) == Reading(text, |Spelling(text, stop)|)
  {
    var s := Whole(text, stop);
    Associative(Escape(s), Ending(stop), rest);
    ReadEscaped(s, Ending(stop) + rest, maxLength);
    EndingIsRead(stop, rest, maxLength - |s|);
    assert text == s + if stop.AtLoneBackslash? then [BACKSLASH] else [];
  }

  lemma {:induction false} EndingIsRead(stop: Stop, rest: seq<byte>, maxLength: nat)
    requires stop.Fits(if stop.AtLoneBackslash? then [BACKSLASH] else [], maxLength, |rest|)
    ensures ReadString(Ending(stop) + rest, maxLength) ==
            Reading(if stop.AtLoneBackslash? then [BACKSLASH] else [], |Ending(stop)|)
  {
    if stop.AtTerminator? {
      assert Ending(stop) + rest == [BACKSLASH, stop.x] + rest;
    } else if stop.AtLoneBackslash? {
      assert Ending(stop) + rest == [BACKSLASH];
    }
  }

  /** The first `used` bytes of `w` spell `text` up to the stop. */
  ghost predicate Spells(w: seq<byte>, maxLength: nat, text: seq<byte>, used: nat, stop: Stop) {
    used <= |w| && w[..used] == Spelling(text, stop) && stop.Fits(text, maxLength, |w| - used)
  }

  /** So exactly one text, from exactly one number of bytes, is promised; it is the one read. */
  lemma {:induction false} SpellsIff(w: seq<byte>, maxLength: nat, text: seq<byte>, used: nat)
    ensures (exists stop :: Spells(w, maxLength, text, used, stop)) <==> ReadString(w, maxLength) == Reading(text, used)
  {
    var stop := ReadingSpells(w, maxLength);
    var r := ReadString(w, maxLength);
    assert Spells(w, maxLength, r.text, r.used, stop);
    forall stop | Spells(w, maxLength, text, used, stop)
      ensures ReadString(w, maxLength) == Reading(text, used)
    {
      SpelledIsRead(text, stop, w[used..], maxLength);
      assert w[..used] + w[used..] == w;
    }
  }

  /** Without a terminator a string goes on to the end of the data. */
  lemma {:induction false} UnterminatedIsRead(s: seq<byte>, maxLength: nat)
    requires |s| <= maxLength
    ensures ReadString(Escape(s), maxLength) == Reading(s, |Escape(s)|)
  {
    ReadEscaped(s, [], maxLength);
    assert Escape(s) + [] == Escape(s) && s + [] == s;
  }

  /** A last backslash without a partner stands for itself. */
  lemma {:induction false} LoneBackslashIsRead(s: seq<byte>, maxLength: nat)
    requires |s| < maxLength
    ensures ReadString(Escape(s) + [BACKSLASH], maxLength) == Reading(s + [BACKSLASH], |Escape(s)| + 1)
  {
    ReadEscaped(s, [BACKSLASH], maxLength);
  }

  /** The encoding of `s`, terminated by a backslash and `x`, with `rest` behind it. */
  function Terminated(s: seq<byte>, x: byte, rest: seq<byte>): seq<byte> {
    Escape(s) + ([BACKSLASH, x] + rest)
  }

  /**
   Round trip. Ahead of a terminator, or at the length limit, an encoded text is read back and
   what follows is left alone.
   */
  lemma {:induction false} EscapeRoundTrip(s: seq<byte>, x: byte, rest: seq<byte>, maxLength: nat)
    requires x != BACKSLASH
    ensures |s| < maxLength ==>
              && ReadString(Terminated(s, x, rest), maxLength) == Reading(s, |Escape(s)| + 2)
              && Terminated(s, x, rest)[|Escape(s)| + 2..] == rest
    ensures |s| == maxLength ==>
              && ReadString(Escape(s) + rest, maxLength) == Reading(s, |Escape(s)|)
              && (Escape(s) + rest)[|Escape(s)|..] == rest
  {
    if |s| < maxLength {
      SpelledIsRead(s, AtTerminator(x), rest, maxLength);
      Associative(Escape(s), [BACKSLASH, x], rest);
    } else if |s| == maxLength {
      SpelledIsRead(s, AtLimit, rest, maxLength);
      assert Escape(s) + [] == Escape(s);
    }
  }

  /**
   How many bytes a string costs; and a string that stopped short of its limit with data left
   over stopped at a backslash followed by another byte.
   */
  lemma {:induction false} ReadingBounds(w: seq<byte>, maxLength: nat)
    ensures var r := ReadString(w, maxLength);
            && |r.text| <= maxLength
            && |r.text| <= r.used <= Min(2 * |r.text| + 2, 2 * maxLength)
            && (|r.text| < maxLength && r.used < |w| ==>
                  r.used >= |r.text| + 2 && w[r.used - 2] == BACKSLASH && w[r.used - 1] != BACKSLASH)
  {
    var r := ReadString(w, maxLength);
    var stop := ReadingSpells(w, maxLength);
    var taken := w[..r.used];
    assert |taken| == r.used;
    if stop.AtTerminator? {
      assert w[r.used - 2] == taken[r.used - 2] && w[r.used - 1] == taken[r.used - 1];
    }
  }

  /**
   A reading depends only on the bytes it took: with anything else behind them the reading is the
   same. A reading that ran to the end of the data is covered when nothing is put behind it. The
   limit can change too, as long as the string did not reach it.
   */
  lemma {:induction false} ReadingIsLocal(w: seq<byte>, w': seq<byte>, maxLength: nat, maxLength': nat)
    requires var r := ReadString(w, maxLength);
             && r.used <= |w'|
             && w'[..r.used] == w[..r.used]
             && (r.used < |w| || r.used == |w'|)
             && (maxLength' == maxLength || |r.text| < Min(maxLength, maxLength'))
    ensures ReadString(w', maxLength') == ReadString(w, maxLength)
  {
    var r := ReadString(w, maxLength);
    var stop := ReadingSpells(w, maxLength);
    SpelledIsRead(r.text, stop, w'[r.used..], maxLength');
    assert w' == w'[..r.used] + w'[r.used..];
  }

  // ------------------------------------------------------------------------
  // Inserting a byte into an encoded string
  // ------------------------------------------------------------------------

  function Insert(s: seq<byte>, at: nat, c: byte): (r: seq<byte>)
    requires at <= |s|
    ensures |r| == |s| + 1
  {
    s[..at] + [c] + s[at..]
  }

  /** Position `p` of the encoding of `s` is where the token of character `k` begins. */
  ghost predicate IsBoundary(s: seq<byte>, p: nat, k: nat) {
    k <= |s| && p == |Escape(s[..k])|
  }

  /**
   A byte other than a backslash, inserted between two tokens, becomes a character of the string. What is left unread is
   the same, unless the longer string reaches its limit and so no longer reads its terminator.
   */
  lemma {:induction false} InsertPlainAtBoundary(s: seq<byte>, x: byte, rest: seq<byte>, maxLength: nat, k: nat, c: byte)
    requires |s| < maxLength && x != BACKSLASH && c != BACKSLASH
    requires k <= |s|
    ensures |Escape(s[..k])| <= |Escape(s)|
    ensures var w := Insert(Terminated(s, x, rest), |Escape(s[..k])|, c);
            && ReadString(w, maxLength).text == Insert(s, k, c)
            && w[ReadString(w, maxLength).used..] ==
               if |s| + 1 < maxLength then rest else [BACKSLASH, x] + rest
  {
    InsertedIsEncoded(s, k, c, [BACKSLASH, x] + rest);
    ReadInserted(Insert(s, k, c), x, rest, maxLength);
  }

  /** Inserting between tokens inserts into the text that is encoded. */
  lemma {:induction false} InsertedIsEncoded(s: seq<byte>, k: nat, c: byte, tail: seq<byte>)
    requires k <= |s| && c != BACKSLASH
    ensures |Escape(s[..k])| <= |Escape(s)|
    ensures Insert(Escape(s) + tail, |Escape(s[..k])|, c) == Escape(Insert(s, k, c)) + tail
  {
    EscapeSplit(s, k);
    EscapeOfInsert(s, k, c);
    InsertBetween(Escape(s[..k]), Escape(s[k..]), tail, c);
  }

  lemma {:induction false} ReadInserted(s: seq<byte>, x: byte, rest: seq<byte>, maxLength: nat)
    requires |s| <= maxLength && x != BACKSLASH
    ensures var w := Terminated(s, x, rest);
            && ReadString(w, maxLength).text == s
            && w[ReadString(w, maxLength).used..] == if |s| < maxLength then rest else [BACKSLASH, x] + rest
  {
    EscapeRoundTrip(s, x, rest, maxLength);
    EscapeRoundTrip(s, x, [BACKSLASH, x] + rest, maxLength);
  }

  lemma {:induction false} EscapeSplit(s: seq<byte>, k: nat)
    requires k <= |s|
    ensures Escape(s) == Escape(s[..k]) + Escape(s[k..])
  {
    assert s == s[..k] + s[k..];
    EscapeConcat(s[..k], s[k..]);
  }

  lemma {:induction false} EscapeOfInsert(s: seq<byte>, k: nat, c: byte)
    requires k <= |s| && c != BACKSLASH
    ensures Escape(Insert(s, k, c)) == Escape(s[..k]) + ([c] + Escape(s[k..]))
  {
    var b := [c] + s[k..];
    assert Insert(s, k, c) == s[..k] + b;
    EscapeConcat(s[..k], b);
    assert b[1..] == s[k..];
  }

  lemma {:induction false} InsertBetween(a: seq<byte>, b: seq<byte>, rest: seq<byte>, c: byte)
    ensures Insert(a + b + rest, |a|, c) == a + ([c] + b) + rest
  {
    assert (a + b + rest)[..|a|] == a;
    assert (a + b + rest)[|a|..] == b + rest;
  }

  /**
   Inserted between the two backslashes of a pair, it ends the string there: it is cut before
   the character of that pair, and everything from the second backslash on is left unread.
   */
  lemma {:induction false} InsertPlainInsidePair(s: seq<byte>, x: byte, rest: seq<byte>, maxLength: nat, k: nat, c: byte)
    requires |s| < maxLength && x != BACKSLASH && c != BACKSLASH
    requires k < |s| && s[k] == BACKSLASH
    ensures |Escape(s[..k])| + 1 <= |Escape(s)|
    ensures var w := Insert(Terminated(s, x, rest), |Escape(s[..k])| + 1, c);
            && ReadString(w, maxLength).text == s[..k]
            && w[ReadString(w, maxLength).used..] == [BACKSLASH] + Terminated(s[k + 1..], x, rest)
  {
    var after := Escape(s[k + 1..]);
    var tail := [BACKSLASH, x] + rest;
    EscapeSplit(s, k);
    assert s[k..][1..] == s[k + 1..];
    assert Escape(s[k..]) == [BACKSLASH, BACKSLASH] + after;
    InsertIntoPair(Escape(s[..k]), after, tail, c);
    EscapeRoundTrip(s[..k], c, [BACKSLASH] + (after + tail), maxLength);
  }

  lemma {:induction false} InsertIntoPair(a: seq<byte>, b: seq<byte>, tail: seq<byte>, c: byte)
    ensures Insert(a + ([BACKSLASH, BACKSLASH] + b) + tail, |a| + 1, c) ==
            a + ([BACKSLASH, c] + ([BACKSLASH] + (b + tail)))
  {
    var w := a + ([BACKSLASH, BACKSLASH] + b) + tail;
    assert w[..|a| + 1] == a + [BACKSLASH];
    assert w[|a| + 1..] == [BACKSLASH] + (b + tail);
  }

  /** Inserted inside the terminator, it is swallowed, and the old second byte is left unread. */
  lemma {:induction false} InsertPlainInsideTerminator(s: seq<byte>, x: byte, rest: seq<byte>, maxLength: nat, c: byte)
    requires |s| < maxLength && x != BACKSLASH && c != BACKSLASH
    ensures var w := Insert(Terminated(s, x, rest), |Escape(s)| + 1, c);
            && ReadString(w, maxLength).text == s
            && w[ReadString(w, maxLength).used..] == [x] + rest
  {
    var w := Insert(Terminated(s, x, rest), |Escape(s)| + 1, c);
    assert w == Terminated(s, c, [x] + rest);
    EscapeRoundTrip(s, c, [x] + rest, maxLength);
  }

  /** Every position of an encoding is the start of a token or the middle of a pair. */
  lemma {:induction false} LocatePosition(s: seq<byte>, p: nat) returns (k: nat, inside: bool)
    requires p <= |Escape(s)|
    ensures k <= |s|
    ensures if inside then k < |s| && s[k] == BACKSLASH && p == |Escape(s[..k])| + 1 else IsBoundary(s, p, k)
  {
    if p == 0 {
      k, inside := 0, false;
    } else if p < |Token(s[0])| {
      k, inside := 0, true;
    } else {
      k, inside := LocatePosition(s[1..], p - |Token(s[0])|);
      k := k + 1;
      assert s[..k][1..] == s[1..][..k - 1];
    }
  }

  lemma {:induction false} PrefixEscapeGrows(s: seq<byte>, j: nat, k: nat)
    requires j < k <= |s|
    ensures |Escape(s[..j])| + |Token(s[j])| <= |Escape(s[..k])|
  {
    assert s[..k] == s[..j] + ([s[j]] + s[j + 1..k]);
    EscapeConcat(s[..j], [s[j]] + s[j + 1..k]);
    EscapeConcat([s[j]], s[j + 1..k]);
    assert Escape([s[j]]) == Token(s[j]) + Escape([]);
  }

  lemma {:induction false} MidPairIsNoBoundary(s: seq<byte>, p: nat, k: nat)
    requires k < |s| && s[k] == BACKSLASH && p == |Escape(s[..k])| + 1
    ensures forall j: nat :: !IsBoundary(s, p, j)
  {
    forall j: nat | j <= |s|
      ensures !IsBoundary(s, p, j)
    {
      if j < k {
        PrefixEscapeGrows(s, j, k);
      } else if k < j {
        PrefixEscapeGrows(s, k, j);
      }
    }
  }

  /** Among backslashes it makes no difference where one more of them is inserted. */
  lemma {:induction false} SlideBackslash(w: seq<byte>, p: nat, q: nat)
    requires p <= q <= |w| && forall i :: p <= i < q ==> w[i] == BACKSLASH
    ensures Insert(w, p, BACKSLASH) == Insert(w, q, BACKSLASH)
  {
  }

  /** From place `p` on the encoding of `s` has nothing but backslashes. */
  predicate OnlyBackslashesFrom(s: seq<byte>, p: nat) {
    forall i :: p <= i < |Escape(s)| ==> Escape(s)[i] == BACKSLASH
  }

  /**
   A backslash inserted where only backslashes follow takes the backslash of the terminator for
   its pair: the string goes on with a backslash and with what was behind it.
   */
  lemma {:induction false} InsertBackslashAtTail(s: seq<byte>, x: byte, rest: seq<byte>, maxLength: nat, p: nat)
    requires |s| < maxLength && p <= |Escape(s)| + 1 && OnlyBackslashesFrom(s, p)
    ensures ReadString(Insert(Terminated(s, x, rest), p, BACKSLASH), maxLength) ==
            Following(s + [BACKSLASH], |Escape(s)| + 2, ReadString([x] + rest, maxLength - |s| - 1))
  {
    EscapeSnoc(s);
    InsertInTail(Escape(s), x, rest, p);
    ReadEscaped(s + [BACKSLASH], [x] + rest, maxLength);
  }

  lemma {:induction false} InsertInTail(e: seq<byte>, x: byte, rest: seq<byte>, p: nat)
    requires p <= |e| + 1 && forall i :: p <= i < |e| ==> e[i] == BACKSLASH
    ensures Insert(e + ([BACKSLASH, x] + rest), p, BACKSLASH) == (e + [BACKSLASH, BACKSLASH]) + ([x] + rest)
  {
    var w := e + ([BACKSLASH, x] + rest);
    assert forall i :: p <= i < |e| ==> w[i] == e[i];
    SlideBackslash(w, p, |e| + 1);
    assert Insert(w, |e| + 1, BACKSLASH) == (e + [BACKSLASH, BACKSLASH]) + ([x] + rest);
  }

  lemma {:induction false} EscapeSnoc(s: seq<byte>)
    ensures Escape(s + [BACKSLASH]) == Escape(s) + [BACKSLASH, BACKSLASH]
  {
    EscapeConcat(s, [BACKSLASH]);
    assert Escape([BACKSLASH]) == [BACKSLASH, BACKSLASH] + Escape([]);
  }

  /** Character `k` is the first behind place `p` that is not a backslash. */
  ghost predicate NextPlain(s: seq<byte>, p: nat, k: nat) {
    && k < |s| && s[k] != BACKSLASH
    && p <= |Escape(s[..k])| < |Escape(s)|
    && forall i :: p <= i < |Escape(s[..k])| ==> Escape(s)[i] == BACKSLASH
  }

  /** Any other backslash pairs up with the next character that is not one, and so ends the string before it. */
  lemma {:induction false} InsertBackslashBefore(s: seq<byte>, x: byte, rest: seq<byte>, maxLength: nat, p: nat, k: nat)
    requires |s| < maxLength && NextPlain(s, p, k)
    ensures Leads(Insert(Terminated(s, x, rest), p, BACKSLASH), maxLength, s[..k], Terminated(s[k + 1..], x, rest))
  {
    var w, a := Terminated(s, x, rest), Escape(s[..k]);
    assert w[..|Escape(s)|] == Escape(s);
    SlideBackslash(w, p, |a|);
    EscapeSplit(s, k);
    assert s[k..][1..] == s[k + 1..];
    InsertBeforePlain(a, s[k], Escape(s[k + 1..]), [BACKSLASH, x] + rest);
    EscapeRoundTrip(s[..k], s[k], Terminated(s[k + 1..], x, rest), maxLength);
  }

  lemma {:induction false} InsertBeforePlain(a: seq<byte>, c: byte, b: seq<byte>, tail: seq<byte>)
    ensures Insert(a + ([c] + b) + tail, |a|, BACKSLASH) == a + ([BACKSLASH, c] + (b + tail))
  {
    InsertBetween(a, [c] + b, tail, BACKSLASH);
  }

  lemma {:induction false} FindNextPlain(s: seq<byte>, p: nat) returns (k: nat)
    requires !OnlyBackslashesFrom(s, p)
    ensures NextPlain(s, p, k)
  {
    var q := FirstPlain(Escape(s), p);
    k := PlainAt(s, q);
  }

  /** A byte of an encoding that is not a backslash is a token by itself. */
  lemma {:induction false} PlainAt(s: seq<byte>, q: nat) returns (k: nat)
    requires q < |Escape(s)| && Escape(s)[q] != BACKSLASH
    ensures k < |s| && q == |Escape(s[..k])| && s[k] == Escape(s)[q]
  {
    var inside;
    k, inside := LocatePosition(s, q);
    if inside {
      PairAt(s, k);
      assert false;
    }
    TokenAt(s, k);
    var n := |Escape(s[..k])|;
    assert Escape(s)[n] == Escape(s)[n..n + |Token(s[k])|][0];
  }

  lemma {:induction false} PairAt(s: seq<byte>, k: nat)
    requires k < |s| && s[k] == BACKSLASH
    ensures var n := |Escape(s[..k])|; n + 1 < |Escape(s)| && Escape(s)[n + 1] == BACKSLASH
  {
    var n := |Escape(s[..k])|;
    TokenAt(s, k);
    assert Escape(s)[n + 1] == Escape(s)[n..n + 2][1];
  }

  lemma {:induction false} FirstPlain(e: seq<byte>, p: nat) returns (q: nat)
    requires exists i :: p <= i < |e| && e[i] != BACKSLASH
    ensures p <= q < |e| && e[q] != BACKSLASH && forall i :: p <= i < q ==> e[i] == BACKSLASH
    decreases |e| - p
  {
    if e[p] != BACKSLASH {
      q := p;
    } else {
      q := FirstPlain(e, p + 1);
    }
  }

  /** The token of character `k` stands behind the tokens of the characters before it. */
  lemma {:induction false} TokenAt(s: seq<byte>, k: nat)
    requires k <= |s|
    ensures var n := |Escape(s[..k])|;
            if k == |s| then n == |Escape(s)|
            else n + |Token(s[k])| <= |Escape(s)| && Escape(s)[n..n + |Token(s[k])|] == Token(s[k])
  {
    if k == |s| {
      assert s[..k] == s;
    } else {
      EscapeSplit(s, k);
      assert s[k..][1..] == s[k + 1..];
    }
  }

  // ------------------------------------------------------------------------
  // Every insertion
  // ------------------------------------------------------------------------

  /** The string read from `w` is `text`, and `left` is left. */
  ghost predicate Leads(w: seq<byte>, maxLength: nat, text: seq<byte>, left: seq<byte>) {
    ReadString(w, maxLength).text == text && w[ReadString(w, maxLength).used..] == left
  }

  /** What becomes of a terminated string when a byte is inserted. */
  datatype Fate =
    | Grows(k: nat)
    | CutInPair(k: nat)
    | Swallowed
    | CutBefore(k: nat)
    | RunsOn
    | Untouched
  {
    /** The insertions of `c` at place `p` that have this fate. */
    ghost predicate Befalls(s: seq<byte>, p: nat, c: byte) {
      match this
      case Grows(k) => c != BACKSLASH && IsBoundary(s, p, k)
      case CutInPair(k) => c != BACKSLASH && k < |s| && s[k] == BACKSLASH && p == |Escape(s[..k])| + 1
      case Swallowed => c != BACKSLASH && p == |Escape(s)| + 1
      case CutBefore(k) => c == BACKSLASH && NextPlain(s, p, k)
      case RunsOn => c == BACKSLASH && p <= |Escape(s)| + 1 && OnlyBackslashesFrom(s, p)
      case Untouched => p > |Escape(s)| + 1
    }

    /** What is then read, and what is left. */
    ghost predicate Describes(s: seq<byte>, x: byte, rest: seq<byte>, maxLength: nat, p: nat, c: byte)
      requires |s| < maxLength && p <= |Terminated(s, x, rest)| && Befalls(s, p, c)
    {
      var w := Insert(Terminated(s, x, rest), p, c);
      match this
      case Grows(k) =>
        Leads(w, maxLength, Insert(s, k, c), if |s| + 1 < maxLength then rest else [BACKSLASH, x] + rest)
      case CutInPair(k) => Leads(w, maxLength, s[..k], [BACKSLASH] + Terminated(s[k + 1..], x, rest))
      case Swallowed => Leads(w, maxLength, s, [x] + rest)
      case CutBefore(k) => Leads(w, maxLength, s[..k], Terminated(s[k + 1..], x, rest))
      case RunsOn =>
        ReadString(w, maxLength) ==
        Following(s + [BACKSLASH], |Escape(s)| + 2, ReadString([x] + rest, maxLength - |s| - 1))
      case Untouched => Leads(w, maxLength, s, Insert(rest, p - |Escape(s)| - 2, c))
    }
  }

  /** Every insertion of any byte at any place meets one of these fates, and what follows from it. */
  lemma {:induction false} InsertionOutcome(s: seq<byte>, x: byte, rest: seq<byte>, maxLength: nat, p: nat, c: byte)
    returns (fate: Fate)
    requires |s| < maxLength && x != BACKSLASH && p <= |Terminated(s, x, rest)|
    ensures fate.Befalls(s, p, c) && fate.Describes(s, x, rest, maxLength, p, c)
  {
    if p > |Escape(s)| + 1 {
      fate := Untouched;
      InsertBehind(s, x, rest, maxLength, p, c);
    } else if c == BACKSLASH {
      fate := BackslashOutcome(s, x, rest, maxLength, p);
    } else {
      fate := PlainOutcome(s, x, rest, maxLength, p, c);
    }
  }

  lemma {:induction false} InsertBehind(s: seq<byte>, x: byte, rest: seq<byte>, maxLength: nat, p: nat, c: byte)
    requires |s| < maxLength && x != BACKSLASH && |Escape(s)| + 2 <= p <= |Terminated(s, x, rest)|
    ensures Leads(Insert(Terminated(s, x, rest), p, c), maxLength, s, Insert(rest, p - |Escape(s)| - 2, c))
  {
    var rest' := Insert(rest, p - |Escape(s)| - 2, c);
    assert Insert(Terminated(s, x, rest), p, c) == Terminated(s, x, rest');
    EscapeRoundTrip(s, x, rest', maxLength);
  }

  lemma {:induction false} BackslashOutcome(s: seq<byte>, x: byte, rest: seq<byte>, maxLength: nat, p: nat)
    returns (fate: Fate)
    requires |s| < maxLength && x != BACKSLASH && p <= |Escape(s)| + 1
    ensures fate.Befalls(s, p, BACKSLASH) && fate.Describes(s, x, rest, maxLength, p, BACKSLASH)
  {
    if OnlyBackslashesFrom(s, p) {
      fate := RunsOn;
      InsertBackslashAtTail(s, x, rest, maxLength, p);
    } else {
      var k := FindNextPlain(s, p);
      fate := CutBefore(k);
      InsertBackslashBefore(s, x, rest, maxLength, p, k);
    }
  }

  lemma {:induction false} PlainOutcome(s: seq<byte>, x: byte, rest: seq<byte>, maxLength: nat, p: nat, c: byte)
    returns (fate: Fate)
    requires |s| < maxLength && x != BACKSLASH && p <= |Escape(s)| + 1 && c != BACKSLASH
    ensures fate.Befalls(s, p, c) && fate.Describes(s, x, rest, maxLength, p, c)
  {
    if p == |Escape(s)| + 1 {
      fate := Swallowed;
      InsertPlainInsideTerminator(s, x, rest, maxLength, c);
    } else {
      var k, inside := LocatePosition(s, p);
      if inside {
        fate := CutInPair(k);
        InsertPlainInsidePair(s, x, rest, maxLength, k, c);
      } else {
        fate := Grows(k);
        InsertPlainAtBoundary(s, x, rest, maxLength, k, c);
      }
    }
  }

  /**
   The insertions that lengthen a string: of a backslash where only backslashes follow up to the
   terminator, and of any other byte at the beginning of a token.
   */
  ghost predicate Lengthens(s: seq<byte>, p: nat, c: byte) {
    if c == BACKSLASH then p <= |Escape(s)| + 1 && OnlyBackslashesFrom(s, p)
    else exists k: nat :: IsBoundary(s, p, k)
  }

  /** Exactly when the promise of stability under insertion holds, for every byte and every place. */
  lemma {:induction false} InsertionLengthensIff(s: seq<byte>, x: byte, rest: seq<byte>, maxLength: nat, p: nat, c: byte)
    requires |s| < maxLength && x != BACKSLASH && p <= |Terminated(s, x, rest)|
    ensures var w := Insert(Terminated(s, x, rest), p, c);
            |ReadString(w, maxLength).text| > |s| <==> Lengthens(s, p, c)
  {
    var fate := InsertionOutcome(s, x, rest, maxLength, p, c);
    FateLengthensIff(s, p, c, fate);
  }

  /** Only two of the fates are those of insertions that lengthen. */
  lemma {:induction false} FateLengthensIff(s: seq<byte>, p: nat, c: byte, fate: Fate)
    requires fate.Befalls(s, p, c)
    ensures Lengthens(s, p, c) <==> fate.Grows? || fate.RunsOn?
  {
    assert s[..|s|] == s;
    match fate
    case Grows(k) =>
    case CutInPair(k) => MidPairIsNoBoundary(s, p, k);
    case Swallowed => BehindIsNoBoundary(s, p);
    case CutBefore(k) =>
      TokenAt(s, k);
      assert Escape(s)[|Escape(s[..k])|] == s[k];
    case RunsOn =>
    case Untouched => BehindIsNoBoundary(s, p);
  }

  lemma {:induction false} BehindIsNoBoundary(s: seq<byte>, p: nat)
    requires p > |Escape(s)|
    ensures forall k: nat :: !IsBoundary(s, p, k)
  {
    assert s[..|s|] == s;
    forall k: nat | k < |s|
      ensures !IsBoundary(s, p, k)
    {
      PrefixEscapeGrows(s, k, |s|);
    }
  }

  /**
   The promise does fail: a byte put inside the pair of a lone backslash empties the string, and
   so does a backslash put in front of a string.
   */
  lemma {:induction false} InsertionCanTruncate()
    ensures ReadString([92, 92, 92, 0], 8).text == [92]
    ensures ReadString([92, 65, 92, 92, 0], 8).text == []
    ensures ReadString([97, 98, 92, 0], 8).text == [97, 98]
    ensures ReadString([92, 97, 98, 92, 0], 8).text == []
  {
    EscapeRoundTrip([BACKSLASH], 0, [], 8);
    assert Terminated([BACKSLASH], 0, []) == [BACKSLASH, BACKSLASH, BACKSLASH, 0];
    EscapeRoundTrip([97, 98], 0, [], 8);
    assert Terminated([97, 98], 0, []) == [97, 98, BACKSLASH, 0];
  }
}
