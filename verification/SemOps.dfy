/** The parser of svsem_op.c for lists of semaphore operations. */
module SemOps {

  const MAX_SEMOPS: nat := 1000
  const LONG_MAX: nat := 0x7FFF_FFFF_FFFF_FFFF

  datatype SemOp = SemOp(num: nat, op: int, nowait: bool, undo: bool)

  datatype Error =
    | TooManyOperations | TrailingCommaOrEmpty | ExpectedInitialDigit | ExpectedSign
    | ExpectedDigitAfterSign | ExpectedZero | BadTrailingCharacter

  datatype Result<T> = Ok(value: T) | Err(error: Error)

  predicate IsDigit(c: char) { '0' <= c <= '9' }
  predicate IsSign(c: char) { c == '+' || c == '-' || c == '=' }
  predicate IsFlag(c: char) { c == 'n' || c == 'u' }

  /** The two kinds of characters that the parser skips runs of. */
  datatype Kind = Digits | Flags

  predicate IsOf(k: Kind, c: char) { if k == Digits then IsDigit(c) else IsFlag(c) }

  /** The value of a string of digits. */
  function Value(s: string): nat
    requires forall i | 0 <= i < |s| :: IsDigit(s[i])
  {
    if s == [] then 0
    else
      assert IsDigit(s[|s| - 1]);
      10 * Value(s[..|s| - 1]) + (s[|s| - 1] as int - '0' as int)
  }

  /** strtol() of digits saturates. */
  function Long(s: string): (v: nat)
    requires forall i | 0 <= i < |s| :: IsDigit(s[i])
  {
    if Value(s) > LONG_MAX then LONG_MAX else Value(s)
  }

  /** Conversions to unsigned short and to short. */
  function ToUShort(v: int): nat { v % 0x1_0000 }
  function ToShort(v: int): int { if v % 0x1_0000 < 0x8000 then v % 0x1_0000 else v % 0x1_0000 - 0x1_0000 }

  /** The longest prefix of characters of kind k, and the rest. */
  function Break(k: Kind, s: string): (r: (string, string))
    ensures r.0 + r.1 == s
    ensures (forall i | 0 <= i < |r.0| :: IsOf(k, r.0[i])) && (r.1 == [] || !IsOf(k, r.1[0]))
  {
    if s == [] || !IsOf(k, s[0]) then ([], s)
    else
      var (a, b) := Break(k, s[1..]);
      assert [s[0]] + a + b == s;
      ([s[0]] + a, b)
  }

  // ---- What one pass of the loop does to the remaining input ----

  /** The operation at the start of rem, and what follows its flags. */
  function ParseOp(rem: string): (r: Result<(SemOp, string)>)
    ensures r.Ok? ==> |r.value.1| < |rem| && (r.value.1 == [] || r.value.1[0] == ',')
  {
    if rem == [] then Err(TrailingCommaOrEmpty)
    else if !IsDigit(rem[0]) then Err(ExpectedInitialDigit)
    else
      var (num, r1) := Break(Digits, rem);
      assert |rem| == |num| + |r1|;
      ParseValue(num, r1)
  }

  function ParseValue(num: string, r1: string): (r: Result<(SemOp, string)>)
    requires Numeric(num)
    ensures r.Ok? ==> |r.value.1| < |r1| && (r.value.1 == [] || r.value.1[0] == ',')
  {
    if r1 == [] || !IsSign(r1[0]) then Err(ExpectedSign)
    else if r1[1..] == [] || !IsDigit(r1[1]) then Err(ExpectedDigitAfterSign)
    else
      var (value, r2) := Break(Digits, r1[1..]);
      if r1[0] == '=' && ToShort(Long(value)) != 0 then Err(ExpectedZero)
      else
        assert |r1| == 1 + |value| + |r2|;
        ParseFlags(num, r1[0], value, r2)
  }

  predicate Numeric(s: string) { forall i | 0 <= i < |s| :: IsDigit(s[i]) }

  function ParseFlags(num: string, sign: char, value: string, r2: string): (r: Result<(SemOp, string)>)
    requires Numeric(num) && Numeric(value)
    ensures r.Ok? ==> |r.value.1| <= |r2| && (r.value.1 == [] || r.value.1[0] == ',')
  {
    var (flags, r3) := Break(Flags, r2);
    if r3 != [] && r3[0] != ',' then Err(BadTrailingCharacter)
    else
      assert |r2| == |flags| + |r3|;
      Ok((Denote(num, sign, value, flags), r3))
  }

  function Denote(num: string, sign: char, value: string, flags: string): SemOp
    requires Numeric(num) && Numeric(value)
  {
    var v := ToShort(Long(value));
    SemOp(ToUShort(Long(num)), if sign == '-' then ToShort(-v) else v, 'n' in flags, 'u' in flags)
  }

  /** strchr(rem, ','), or the length of rem if there is no comma. */
  function Comma(rem: string): (n: nat)
    ensures n <= |rem| && (n < |rem| ==> rem[n] == ',') && forall i | 0 <= i < n :: rem[i] != ','
  {
    if rem == [] || rem[0] == ',' then 0 else 1 + Comma(rem[1..])
  }

  /** parseOps, with n operations parsed and rem remaining. */
  function ParseFrom(rem: string, n: nat): (r: Result<seq<SemOp>>)
    ensures r.Ok? ==> r.value != [] && n + |r.value| <= MAX_SEMOPS
    decreases |rem|
  {
    if n >= MAX_SEMOPS then Err(TooManyOperations)
    else
      var first := ParseOp(rem);
      if first.Err? then Err(first.error)
      else
        var comma := Comma(rem);
        if comma == |rem| then Ok([first.value.0])
        else
          var rest := ParseFrom(rem[comma + 1..], n + 1);
          if rest.Err? then rest else Ok([first.value.0] + rest.value)
  }

  // ---- The grammar ----

  /** <sem#>{+|-|=}<value>[n][u], with any run of flags and any leading zeros. */
  datatype OpText = OpText(num: string, sign: char, value: string, flags: string)

  predicate AllDigits(s: string) { s != [] && forall i | 0 <= i < |s| :: IsDigit(s[i]) }

  predicate WellFormed(t: OpText)
  {
    && AllDigits(t.num) && IsSign(t.sign) && AllDigits(t.value)
    && (forall i | 0 <= i < |t.flags| :: IsFlag(t.flags[i]))
    && (t.sign == '=' ==> ToShort(Long(t.value)) == 0)
  }

  function Denoted(t: OpText): SemOp
    requires WellFormed(t)
  {
    Denote(t.num, t.sign, t.value, t.flags)
  }

  function Rendered(t: OpText): string { t.num + ([t.sign] + (t.value + t.flags)) }

  function RenderedAll(ts: seq<OpText>): string
    requires ts != []
  {
    if |ts| == 1 then Rendered(ts[0]) else Rendered(ts[0]) + "," + RenderedAll(ts[1..])
  }

  function DenotedAll(ts: seq<OpText>): (ops: seq<SemOp>)
    requires forall i | 0 <= i < |ts| :: WellFormed(ts[i])
    ensures |ops| == |ts| && forall i | 0 <= i < |ts| :: ops[i] == Denoted(ts[i])
  {
    if ts == [] then [] else [Denoted(ts[0])] + DenotedAll(ts[1..])
  }

  // ---- One operation ----

  lemma {:induction false} BreakExact(k: Kind, a: string, b: string)
    requires (forall i | 0 <= i < |a| :: IsOf(k, a[i])) && (b == [] || !IsOf(k, b[0]))
    ensures Break(k, a + b) == (a, b)
  {
    if a == [] {
      assert a + b == b;
    } else {
      assert (a + b)[1..] == a[1..] + b;
      BreakExact(k, a[1..], b);
      assert [a[0]] + a[1..] == a;
    }
  }

  lemma Regroup(t: OpText, tail: string)
    ensures Rendered(t) + tail == t.num + ([t.sign] + (t.value + (t.flags + tail)))
  {
    var a, b, c := t.flags + tail, t.value + t.flags, [t.sign] + (t.value + t.flags);
    assert b + tail == t.value + a;
    assert c + tail == [t.sign] + (t.value + a);
  }

  /** A well-formed text, up to a comma or the end, parses to what it denotes. */
  lemma ParseOpComplete(t: OpText, tail: string)
    requires WellFormed(t) && (tail == [] || tail[0] == ',')
    ensures ParseOp(Rendered(t) + tail) == Ok((Denoted(t), tail))
  {
    var r3 := tail;
    var r2 := t.flags + r3;
    var r1 := [t.sign] + (t.value + r2);
    Regroup(t, tail);
    BreakExact(Digits, t.num, r1);
    assert r1[1..] == t.value + r2;
    BreakExact(Digits, t.value, r2);
    BreakExact(Flags, t.flags, r3);
    assert (t.num + r1)[0] == t.num[0] && r1[1] == t.value[0];
  }

  /** Whatever parses is a well-formed text of the operation, up to a comma or the end. */
  lemma ParseOpSound(rem: string) returns (t: OpText)
    requires ParseOp(rem).Ok?
    ensures WellFormed(t) && ParseOp(rem).value.0 == Denoted(t) && rem == Rendered(t) + ParseOp(rem).value.1
  {
    var (num, r1) := Break(Digits, rem);
    var (value, r2) := Break(Digits, r1[1..]);
    var (flags, r3) := Break(Flags, r2);
    t := OpText(num, r1[0], value, flags);
    assert r1 == [r1[0]] + r1[1..];
    Regroup(t, r3);
  }

  /** The comma that is looked for from the start of the operation is the one at which its
      flags ended. */
  lemma CommaIsAtFlags(rem: string)
    requires ParseOp(rem).Ok?
    ensures rem[Comma(rem)..] == ParseOp(rem).value.1
  {
    var t := ParseOpSound(rem);
    forall i | 0 <= i < |Rendered(t)| ensures Rendered(t)[i] != ',' {
      NoCommaInside(t, i);
    }
    CommaExact(Rendered(t), ParseOp(rem).value.1);
  }

  lemma CommaExact(s: string, tail: string)
    requires (forall i | 0 <= i < |s| :: s[i] != ',') && (tail == [] || tail[0] == ',')
    ensures Comma(s + tail) == |s| && (s + tail)[|s|..] == tail
  {
    assert forall i | 0 <= i < |s| :: (s + tail)[i] == s[i];
    assert tail != [] ==> (s + tail)[|s|] == ',';
  }

  lemma NoCommaInside(t: OpText, i: nat)
    requires WellFormed(t) && i < |Rendered(t)|
    ensures Rendered(t)[i] != ','
  {
    var a, b := |t.num|, |t.num| + 1 + |t.value|;
    assert Rendered(t)[i] ==
      if i < a then t.num[i] else if i == a then t.sign else if i < b then t.value[i - a - 1] else t.flags[i - b];
  }

  // ---- Whole arguments ----

  lemma AfterComma(rem: string, rest: string)
    requires rem[Comma(rem)..] == "," + rest
    ensures Comma(rem) < |rem| && rem[Comma(rem) + 1..] == rest
  {
    assert rem[Comma(rem) + 1..] == rem[Comma(rem)..][1..];
  }

  /** Every list of 1 to 1000 well-formed texts parses to what it denotes. */
  lemma {:induction false} ParseComplete(ts: seq<OpText>, n: nat)
    requires ts != [] && n + |ts| <= MAX_SEMOPS && forall i | 0 <= i < |ts| :: WellFormed(ts[i])
    ensures ParseFrom(RenderedAll(ts), n) == Ok(DenotedAll(ts))
  {
    var rem := RenderedAll(ts);
    if |ts| == 1 {
      assert rem == rem + "" && DenotedAll(ts[1..]) == [];
      ParseOpComplete(ts[0], "");
      CommaIsAtFlags(rem);
      assert |rem[Comma(rem)..]| == 0;
      assert DenotedAll(ts) == [Denoted(ts[0])];
    } else {
      var rest := RenderedAll(ts[1..]);
      assert rem == Rendered(ts[0]) + ("," + rest);
      ParseOpComplete(ts[0], "," + rest);
      CommaIsAtFlags(rem);
      AfterComma(rem, rest);
      ParseComplete(ts[1..], n + 1);
    }
  }

  /** ts is a list of well-formed texts that spells out rem and denotes ops. */
  predicate Spells(ts: seq<OpText>, rem: string, ops: seq<SemOp>)
  {
    ts != [] && (forall i | 0 <= i < |ts| :: WellFormed(ts[i])) && rem == RenderedAll(ts) && ops == DenotedAll(ts)
  }

  lemma {:induction false} RestSound(rem: string, n: nat, r: Result<seq<SemOp>>)
    returns (us: seq<OpText>, ops: seq<SemOp>)
    requires r == ParseFrom(rem, n) && r.Ok? && Comma(rem) < |rem|
    ensures ParseOp(rem).Ok? && Spells(us, rem[Comma(rem) + 1..], ops) && r.value == [ParseOp(rem).value.0] + ops
    decreases |rem|, 0
  {
    ParseRest(rem, n);
    var q := ParseFrom(rem[Comma(rem) + 1..], n + 1);
    us := ParseSound(rem[Comma(rem) + 1..], n + 1, q);
    ops := q.value;
  }

  /** Whatever parses is such a list. */
  lemma {:induction false} ParseSound(rem: string, n: nat, r: Result<seq<SemOp>>) returns (ts: seq<OpText>)
    requires r == ParseFrom(rem, n) && r.Ok?
    ensures Spells(ts, rem, r.value)
    decreases |rem|, 1
  {
    if Comma(rem) < |rem| {
      var us, ops := RestSound(rem, n, r);
      ts := Prepend(us, rem, ops);
    } else {
      ParseLast(rem, n);
      ts := Alone(rem);
    }
  }

  /** Exactly the comma-separated lists of 1 to 1000 well-formed texts are accepted, each as
      what it denotes. */
  lemma AcceptsExactlyTheGrammar(arg: string, ops: seq<SemOp>)
    ensures ParseFrom(arg, 0) == Ok(ops) <==> |ops| <= MAX_SEMOPS && exists ts: seq<OpText> :: Spells(ts, arg, ops)
  {
    if ts: seq<OpText> :| Spells(ts, arg, ops) && |ops| <= MAX_SEMOPS {
      ParseComplete(ts, 0);
    }
    if ParseFrom(arg, 0) == Ok(ops) {
      var ts := ParseSound(arg, 0, ParseFrom(arg, 0));
    }
  }

  lemma HeadAndTail(s: string, i: nat)
    requires i <= |s|
    ensures s[i..] == if i < |s| then [s[i]] + s[i + 1..] else []
  {
  }

  /** The text of the first operation, and the comma behind it. */
  lemma FirstText(rem: string) returns (t: OpText, comma: nat)
    requires ParseOp(rem).Ok?
    ensures WellFormed(t) && Denoted(t) == ParseOp(rem).value.0
    ensures comma == Comma(rem)
    ensures rem == if comma < |rem| then Rendered(t) + ("," + rem[comma + 1..]) else Rendered(t)
  {
    t := ParseOpSound(rem);
    CommaIsAtFlags(rem);
    comma := Comma(rem);
    HeadAndTail(rem, comma);
  }

  lemma SpellsMore(t: OpText, us: seq<OpText>, rest: string, ops: seq<SemOp>)
    requires WellFormed(t) && Spells(us, rest, ops)
    ensures Spells([t] + us, Rendered(t) + ("," + rest), [Denoted(t)] + ops)
  {
    assert ([t] + us)[1..] == us;
    assert Rendered(t) + ("," + rest) == Rendered(t) + "," + rest;
  }

  lemma Prepend(us: seq<OpText>, rem: string, ops: seq<SemOp>) returns (ts: seq<OpText>)
    requires ParseOp(rem).Ok? && Comma(rem) < |rem| && Spells(us, rem[Comma(rem) + 1..], ops)
    ensures Spells(ts, rem, [ParseOp(rem).value.0] + ops)
  {
    var t, comma := FirstText(rem);
    SpellsMore(t, us, rem[comma + 1..], ops);
    ts := [t] + us;
  }

  lemma Alone(rem: string) returns (ts: seq<OpText>)
    requires ParseOp(rem).Ok? && Comma(rem) == |rem|
    ensures Spells(ts, rem, [ParseOp(rem).value.0])
  {
    var t, comma := FirstText(rem);
    ts := [t];
    assert DenotedAll(ts[1..]) == [];
  }

  lemma ParseLast(rem: string, n: nat)
    requires n < MAX_SEMOPS && ParseOp(rem).Ok? && Comma(rem) == |rem|
    ensures ParseFrom(rem, n) == Ok([ParseOp(rem).value.0])
  {
  }

  lemma ParseRest(rem: string, n: nat)
    requires n < MAX_SEMOPS && ParseOp(rem).Ok? && Comma(rem) < |rem|
    ensures var r := ParseFrom(rem[Comma(rem) + 1..], n + 1);
      ParseFrom(rem, n) == if r.Err? then r else Ok([ParseOp(rem).value.0] + r.value)
  {
  }

  // ---- Values that do not fit ----

  /** The value that a text spells out. */
  function Written(t: OpText): int
    requires WellFormed(t)
  {
    if t.sign == '-' then -(Value(t.value) as int) else Value(t.value)
  }

  /** An accepted operation is the one that was written exactly if both of its values fit in
      the fields of a sembuf; others are silently changed. */
  lemma IsAsWrittenIff(t: OpText)
    requires WellFormed(t)
    ensures Denoted(t).num == Value(t.num) && Denoted(t).op == Written(t)
            <==> Value(t.num) < 0x1_0000 && -0x8000 <= Written(t) < 0x8000
  {
    if -0x8000 <= Written(t) < 0x8000 {
      ShortRoundTrip(Written(t));
    }
  }

  lemma ShortKeeps(v: int) returns (q: int)
    ensures -0x8000 <= ToShort(v) < 0x8000 && v == ToShort(v) + q * 0x1_0000
  {
    q := v / 0x1_0000 + if v % 0x1_0000 < 0x8000 then 0 else 1;
  }

  /** The number that strtol() makes of digits. */
  function Saturated(v: nat): int { if v > LONG_MAX then LONG_MAX else v }

  /** strtol() stops at the greatest long, and each field is what is left of it modulo 65536, in
      its own range. */
  lemma KeepsLast16Bits(t: OpText, v: int) returns (p: int, q: int)
    requires WellFormed(t) && v == (if t.sign == '-' then -Saturated(Value(t.value)) else Saturated(Value(t.value)))
    ensures Denoted(t).num < 0x1_0000 && Saturated(Value(t.num)) == Denoted(t).num + p * 0x1_0000
    ensures -0x8000 <= Denoted(t).op < 0x8000 && v == Denoted(t).op + q * 0x1_0000
    ensures (Denoted(t).nowait <==> 'n' in t.flags) && (Denoted(t).undo <==> 'u' in t.flags)
  {
    p := Saturated(Value(t.num)) / 0x1_0000;
    var op := ToShort(Long(t.value));
    q := ShortKeeps(Long(t.value));
    if t.sign == '-' {
      var r := ShortKeeps(-op);
      q := r - q;
    }
  }

  /** "=" is documented for zero alone, but what is compared with zero is the truncated value. */
  lemma EqualsAcceptedIff(t: OpText)
    requires AllDigits(t.num) && t.sign == '=' && AllDigits(t.value)
    requires forall i | 0 <= i < |t.flags| :: IsFlag(t.flags[i])
    ensures ParseOp(Rendered(t)).Ok? <==> Value(t.value) <= LONG_MAX && Value(t.value) % 0x1_0000 == 0
  {
    assert Rendered(t) + "" == Rendered(t);
    if ToShort(Long(t.value)) == 0 {
      ParseOpComplete(t, "");
    } else {
      EqualsRejected(t);
    }
  }

  lemma Value65530(d: char)
    requires IsDigit(d)
    ensures AllDigits("6553" + [d]) && Value("6553" + [d]) == 65530 + (d as int - '0' as int)
  {
    assert "6553"[..3] == "655" && "655"[..2] == "65" && "65"[..1] == "6" && "6"[..0] == "";
    assert Value("6") == 6 && Value("65") == 65;
    assert Value("655") == 655;
    var s := "6553" + [d];
    assert s[..4] == "6553" && s[4] == d;
  }

  lemma OneText(t: OpText, arg: string)
    requires WellFormed(t) && arg == Rendered(t)
    ensures ParseFrom(arg, 0) == Ok([Denoted(t)])
  {
    ParseComplete([t], 0);
    assert DenotedAll([t][1..]) == [];
  }

  lemma DenotesZero(t: OpText)
    requires t == OpText("0", '=', "65536", "")
    ensures WellFormed(t) && Denoted(t) == SemOp(0, 0, false, false)
    ensures Rendered(t) == "0=65536"
  {
    Value65530('6');
    assert "6553" + ['6'] == "65536";
    assert Value(t.num) == 0 by { assert t.num[..0] == ""; }
  }

  lemma DenotesOne(t: OpText)
    requires t == OpText("65536", '+', "65537", "")
    ensures WellFormed(t) && Denoted(t) == SemOp(0, 1, false, false)
    ensures Rendered(t) == "65536+65537"
  {
    Value65530('6');
    Value65530('7');
    assert "6553" + ['6'] == "65536" && "6553" + ['7'] == "65537";
  }

  /** 65536 is accepted where only zero is documented, and read as zero. */
  lemma Reads65536AsZero(arg: string)
    requires arg == "0=65536"
    ensures ParseFrom(arg, 0) == Ok([SemOp(0, 0, false, false)])
  {
    var t := OpText("0", '=', "65536", "");
    DenotesZero(t);
    OneText(t, arg);
  }

  /** Semaphore 65536 is read as semaphore 0, and 65537 as 1. */
  lemma TruncatesSilently(arg: string)
    requires arg == "65536+65537"
    ensures ParseFrom(arg, 0) == Ok([SemOp(0, 1, false, false)])
  {
    var t := OpText("65536", '+', "65537", "");
    DenotesOne(t);
    OneText(t, arg);
  }

  lemma EqualsRejected(t: OpText)
    requires AllDigits(t.num) && t.sign == '=' && AllDigits(t.value) && ToShort(Long(t.value)) != 0
    requires forall i | 0 <= i < |t.flags| :: IsFlag(t.flags[i])
    ensures ParseOp(Rendered(t)).Err?
  {
    var r1 := [t.sign] + (t.value + t.flags);
    BreakExact(Digits, t.num, r1);
    assert r1[1..] == t.value + t.flags;
    BreakExact(Digits, t.value, t.flags);
    assert (t.num + r1)[0] == t.num[0] && r1[1] == t.value[0];
  }

  // ---- Printing ----

  function Decimal(n: nat): (s: string)
    ensures AllDigits(s) && Value(s) == n
  {
    var last := [('0' as int + n % 10) as char];
    assert last[..0] == [];
    if n < 10 then last
    else
      var s := Decimal(n / 10);
      assert (s + last)[..|s|] == s;
      s + last
  }

  function Abs(v: int): nat { if v < 0 then -v else v }

  /** An operation in the documented form. */
  function TextFor(op: SemOp): OpText
  {
    OpText(Decimal(op.num), if op.op > 0 then '+' else if op.op < 0 then '-' else '=', Decimal(Abs(op.op)),
           (if op.nowait then "n" else "") + (if op.undo then "u" else ""))
  }

  predicate InRange(op: SemOp) { 0 <= op.num < 0x1_0000 && -0x8000 <= op.op < 0x8000 }

  lemma ShortRoundTrip(v: int)
    requires -0x8000 <= v < 0x8000
    ensures v >= 0 ==> ToShort(v) == v
    ensures v < 0 ==> ToShort(-ToShort(-v)) == v
  {
  }

  lemma DecimalIsLong(n: nat)
    requires n <= 0x1_0000
    ensures AllDigits(Decimal(n)) && Long(Decimal(n)) == n
  {
  }

  lemma DenoteIs(t: OpText, op: SemOp)
    requires InRange(op) && AllDigits(t.num) && AllDigits(t.value)
    requires Long(t.num) == op.num && Long(t.value) == Abs(op.op)
    requires op.op > 0 ==> t.sign == '+'
    requires op.op < 0 ==> t.sign == '-'
    requires op.op == 0 ==> t.sign == '='
    requires (op.nowait <==> 'n' in t.flags) && (op.undo <==> 'u' in t.flags)
    ensures Denote(t.num, t.sign, t.value, t.flags) == op
  {
    ShortRoundTrip(op.op);
  }

  lemma FlagsRoundTrip(op: SemOp)
    ensures var flags := TextFor(op).flags;
      && (forall i | 0 <= i < |flags| :: IsFlag(flags[i]))
      && (op.nowait <==> 'n' in flags) && (op.undo <==> 'u' in flags)
  {
  }

  lemma TextDenotesOp(op: SemOp)
    requires InRange(op)
    ensures WellFormed(TextFor(op)) && Denoted(TextFor(op)) == op
  {
    DecimalIsLong(op.num);
    DecimalIsLong(Abs(op.op));
    FlagsRoundTrip(op);
    DenoteIs(TextFor(op), op);
  }

  function TextsFor(ops: seq<SemOp>): (ts: seq<OpText>)
    ensures |ts| == |ops| && forall i | 0 <= i < |ops| :: ts[i] == TextFor(ops[i])
  {
    if ops == [] then [] else [TextFor(ops[0])] + TextsFor(ops[1..])
  }

  /** Printing a list of operations and parsing it gives the list back. */
  lemma RoundTrip(ops: seq<SemOp>)
    requires 1 <= |ops| <= MAX_SEMOPS && forall i | 0 <= i < |ops| :: InRange(ops[i])
    ensures ParseFrom(RenderedAll(TextsFor(ops)), 0) == Ok(ops)
  {
    var ts := TextsFor(ops);
    forall i | 0 <= i < |ops| ensures WellFormed(ts[i]) && Denoted(ts[i]) == ops[i] {
      TextDenotesOp(ops[i]);
    }
    ParseComplete(ts, 0);
    assert DenotedAll(ts) == ops;
  }

  // ---- The loops of parseOps ----

  /** strtol(): the value of the digits at i, and where they end. */
  method Strtol(arg: string, i: nat) returns (v: nat, end: nat)
    requires i <= |arg|
    ensures i <= end <= |arg| && Break(Digits, arg[i..]) == (arg[i..end], arg[end..]) && v == Long(arg[i..end])
  {
    var (digits, rest) := Break(Digits, arg[i..]);
    end := i + |digits|;
    assert arg[i..] == digits + rest;
    assert arg[i..end] == digits && arg[end..] == rest;
    v := Long(digits);
  }

  /** The loop over the flags. */
  method ScanFlags(arg: string, start: nat) returns (nowait: bool, undo: bool, flags: nat)
    requires start <= |arg|
    ensures start <= flags <= |arg| && Break(Flags, arg[start..]) == (arg[start..flags], arg[flags..])
    ensures (nowait <==> 'n' in arg[start..flags]) && (undo <==> 'u' in arg[start..flags])
  {
    nowait, undo, flags := false, false, start;
    while flags < |arg|
      invariant start <= flags <= |arg|
      invariant forall i | start <= i < flags :: IsFlag(arg[i])
      invariant (nowait <==> 'n' in arg[start..flags]) && (undo <==> 'u' in arg[start..flags])
    {
      assert arg[start..flags + 1] == arg[start..flags] + [arg[flags]];
      if arg[flags] == 'n' {
        nowait := true;
      } else if arg[flags] == 'u' {
        undo := true;
      } else {
        break;
      }
      flags := flags + 1;
    }
    assert arg[start..] == arg[start..flags] + arg[flags..];
    BreakExact(Flags, arg[start..flags], arg[flags..]);
  }

  /** r is the operation that was parsed and tail what follows it, or r is the error. */
  predicate Agrees(parsed: Result<(SemOp, string)>, r: Result<SemOp>, tail: string)
  {
    if parsed.Ok? then r == Ok(parsed.value.0) && tail == parsed.value.1 else r == Err(parsed.error)
  }

  /** The flags of an operation whose number, sign and value stand at i, sign and sign + 1. */
  method ParseRestOfOne(arg: string, i: nat, sign: nat, start: nat, num: nat, op: int)
    returns (r: Result<SemOp>, flags: nat)
    requires i <= sign < start <= |arg| && Numeric(arg[i..sign]) && Numeric(arg[sign + 1..start])
    requires num == ToUShort(Long(arg[i..sign]))
    requires op == var v := ToShort(Long(arg[sign + 1..start])); if arg[sign] == '-' then ToShort(-v) else v
    ensures flags <= |arg|
    ensures Agrees(ParseFlags(arg[i..sign], arg[sign], arg[sign + 1..start], arg[start..]), r, arg[flags..])
  {
    var nowait, undo;
    nowait, undo, flags := ScanFlags(arg, start);
    if flags < |arg| && arg[flags] != ',' {
      return Err(BadTrailingCharacter), flags;
    }
    return Ok(SemOp(num, op, nowait, undo)), flags;
  }

  lemma TailOf(s: string, i: nat)
    requires i <= |s|
    ensures i < |s| ==> s[i..][0] == s[i] && s[i..][1..] == s[i + 1..]
    ensures i + 1 < |s| ==> s[i..][1] == s[i + 1]
    ensures s[i..] == [] <==> i == |s|
  {
  }

  /** The sign, value and flags of an operation whose number stands at i. */
  method ParseAfterNumber(arg: string, i: nat, sign: nat, num: nat) returns (r: Result<SemOp>, flags: nat)
    requires i <= sign <= |arg| && Numeric(arg[i..sign]) && num == ToUShort(Long(arg[i..sign]))
    ensures flags <= |arg|
    ensures Agrees(ParseValue(arg[i..sign], arg[sign..]), r, arg[flags..])
  {
    flags := sign;
    TailOf(arg, sign);
    if sign == |arg| || !IsSign(arg[sign]) {
      return Err(ExpectedSign), flags;
    }
    if sign + 1 == |arg| || !IsDigit(arg[sign + 1]) {
      return Err(ExpectedDigitAfterSign), flags;
    }
    var value, start := Strtol(arg, sign + 1);
    var op := ToShort(value);
    if arg[sign] == '-' {
      op := ToShort(-op);
    } else if arg[sign] == '=' {
      if op != 0 {
        return Err(ExpectedZero), flags;
      }
    }
    r, flags := ParseRestOfOne(arg, i, sign, start, num, op);
  }

  /** One pass of the loop: the operation at `remaining`, and where its flags end. */
  method ParseOne(arg: string, remaining: nat) returns (r: Result<SemOp>, flags: nat)
    requires remaining <= |arg|
    ensures flags <= |arg|
    ensures Agrees(ParseOp(arg[remaining..]), r, arg[flags..])
  {
    if remaining == |arg| {
      return Err(TrailingCommaOrEmpty), remaining;
    }
    if !IsDigit(arg[remaining]) {
      return Err(ExpectedInitialDigit), remaining;
    }
    var num, sign := Strtol(arg, remaining);
    r, flags := ParseAfterNumber(arg, remaining, sign, ToUShort(num));
  }

  function Join(done: seq<SemOp>, rest: Result<seq<SemOp>>): Result<seq<SemOp>>
  {
    if rest.Err? then rest else Ok(done + rest.value)
  }

  lemma JoinLaws(done: seq<SemOp>, op: SemOp, rest: Result<seq<SemOp>>)
    ensures Join([], rest) == rest
    ensures Join(done, Ok([op])) == Ok(done + [op])
    ensures Join(done, if rest.Err? then rest else Ok([op] + rest.value)) == Join(done + [op], rest)
  {
    if rest.Ok? {
      assert [] + rest.value == rest.value;
      assert done + ([op] + rest.value) == (done + [op]) + rest.value;
    }
  }

  /** The operation in front of a comma, and what follows it. */
  lemma GoesOn(rem: string, op: SemOp, n: nat, done: seq<SemOp>, tail: string,
               todo: Result<seq<SemOp>>, rest: Result<seq<SemOp>>)
    requires n < MAX_SEMOPS && ParseOp(rem).Ok? && ParseOp(rem).value.0 == op && Comma(rem) < |rem|
    requires tail == rem[Comma(rem) + 1..] && todo == ParseFrom(rem, n) && rest == ParseFrom(tail, n + 1)
    ensures Join(done, todo) == Join(done + [op], rest)
  {
    ParseRest(rem, n);
    JoinLaws(done, op, rest);
  }

  lemma Ends(rem: string, op: SemOp, n: nat, done: seq<SemOp>, todo: Result<seq<SemOp>>)
    requires n < MAX_SEMOPS && ParseOp(rem).Ok? && ParseOp(rem).value.0 == op && Comma(rem) == |rem|
    requires todo == ParseFrom(rem, n)
    ensures Join(done, todo) == Ok(done + [op])
  {
    ParseLast(rem, n);
    JoinLaws(done, op, todo);
  }

  lemma Stops(rem: string, n: nat, done: seq<SemOp>, todo: Result<seq<SemOp>>)
    requires n <= MAX_SEMOPS && todo == ParseFrom(rem, n)
    ensures n == MAX_SEMOPS ==> Join(done, todo) == Err(TooManyOperations)
    ensures n < MAX_SEMOPS && ParseOp(rem).Err? ==> Join(done, todo) == Err(ParseOp(rem).error)
  {
  }

  /** The search for the comma behind the operation at `remaining`; todo is the parse from there
      and rest the parse from `next`, if there is more. */
  method FindNext(arg: string, remaining: nat, op: SemOp, ghost n: nat, ghost done: seq<SemOp>,
                  ghost todo: Result<seq<SemOp>>)
    returns (more: bool, next: nat, ghost rest: Result<seq<SemOp>>)
    requires remaining <= |arg| && n < MAX_SEMOPS
    requires ParseOp(arg[remaining..]).Ok? && ParseOp(arg[remaining..]).value.0 == op
    requires todo == ParseFrom(arg[remaining..], n)
    ensures !more ==> Join(done, todo) == Ok(done + [op])
    ensures more ==> remaining < next <= |arg| && rest == ParseFrom(arg[next..], n + 1)
    ensures more ==> Join(done, todo) == Join(done + [op], rest)
  {
    var rem := arg[remaining..];
    var comma := Comma(rem);
    more, next, rest := comma < |rem|, remaining + comma + 1, todo;
    if more {
      assert rem[comma + 1..] == arg[next..];
      rest := ParseFrom(arg[next..], n + 1);
      GoesOn(rem, op, n, done, arg[next..], todo, rest);
    } else {
      Ends(rem, op, n, done, todo);
    }
  }

  datatype Progress = Finished | More(next: nat)

  /** One pass of the loop of parseOps, which stores the operation at `remaining` in
      sops[numOps]; todo is the parse from there, and rest what is left of it after the pass. */
  method StoreOne(arg: string, remaining: nat, sops: array<SemOp>, numOps: nat, ghost todo: Result<seq<SemOp>>)
    returns (r: Result<Progress>, ghost rest: Result<seq<SemOp>>)
    requires sops.Length == MAX_SEMOPS && numOps <= MAX_SEMOPS && remaining <= |arg|
    requires todo == ParseFrom(arg[remaining..], numOps)
    modifies sops
    ensures r.Ok? ==> numOps < MAX_SEMOPS
    ensures var all := Join(old(sops[..numOps]), todo);
      match r
      case Err(e) => all == Err(e)
      case Ok(Finished) => all == Ok(sops[..numOps + 1])
      case Ok(More(next)) =>
        remaining < next <= |arg| && rest == ParseFrom(arg[next..], numOps + 1) && all == Join(sops[..numOps + 1], rest)
  {
    ghost var done := sops[..numOps];
    rest := todo;
    Stops(arg[remaining..], numOps, done, todo);
    if numOps >= MAX_SEMOPS {
      return Err(TooManyOperations), rest;
    }
    var one, flags := ParseOne(arg, remaining);
    if one.Err? {
      return Err(one.error), rest;
    }
    sops[numOps] := one.value;
    assert sops[..numOps + 1] == done + [one.value];
    var more, next;
    more, next, rest := FindNext(arg, remaining, one.value, numOps, done, todo);
    r := Ok(if more then More(next) else Finished);
  }

  lemma Begin(arg: string, all: Result<seq<SemOp>>)
    requires all == ParseFrom(arg, 0)
    ensures all == ParseFrom(arg[0..], 0) && all == Join([], all)
  {
    assert arg[0..] == arg;
    JoinLaws([], SemOp(0, 0, false, false), all);
  }

  /** parseOps: every write to sops is in bounds, and the first r.value of them are the
      operations of the argument. */
  method ParseOps(arg: string, sops: array<SemOp>) returns (r: Result<nat>)
    requires sops.Length == MAX_SEMOPS
    modifies sops
    ensures match ParseFrom(arg, 0)
            case Ok(ops) => r.Ok? && r.value == |ops| && sops[..|ops|] == ops
            case Err(e) => r == Err(e)
  {
    var numOps: nat, remaining: nat := 0, 0;
    ghost var all := ParseFrom(arg, 0);
    Begin(arg, all);
    ghost var rest := all;
    while true
      invariant numOps <= MAX_SEMOPS && remaining <= |arg|
      invariant rest == ParseFrom(arg[remaining..], numOps) && all == Join(sops[..numOps], rest)
      decreases |arg| - remaining
    {
      var one;
      one, rest := StoreOne(arg, remaining, sops, numOps, rest);
      if one.Err? || one.value.Finished? {
        r := if one.Err? then Err(one.error) else Ok(numOps + 1);
        break;
      }
      remaining, numOps := one.value.next, numOps + 1;
    }
  }
}
