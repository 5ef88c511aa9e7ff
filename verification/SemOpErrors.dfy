/** Which error parseOps of svsem_op.c reports: the one for the first place at which the argument
    leaves the grammar. */
module SemOpErrors {
  import opened Common
  import opened SemOps

  predicate EndsDigits(r: string) { r == [] || !IsDigit(r[0]) }

  /** Digits without a sign behind them. */
  predicate NoSign(rem: string, num: string, r: string)
  {
    AllDigits(num) && rem == num + r && EndsDigits(r) && (r == [] || !IsSign(r[0]))
  }

  /** Digits and a sign without a digit behind it. */
  predicate NoValue(rem: string, num: string, sign: char, r: string)
  {
    AllDigits(num) && IsSign(sign) && rem == num + ([sign] + r) && EndsDigits(r)
  }

  /** A value behind "=" that is not read as zero. */
  predicate NotZero(rem: string, num: string, value: string, r: string)
  {
    && AllDigits(num) && AllDigits(value) && ToShort(Long(value)) != 0
    && rem == num + (['='] + (value + r)) && EndsDigits(r)
  }

  /** A well-formed text that something other than a comma ends. */
  predicate BadEnd(rem: string, t: OpText, r: string)
  {
    && WellFormed(t) && rem == Rendered(t) + r
    && r != [] && r[0] != ',' && !IsFlag(r[0]) && (t.flags == [] ==> !IsDigit(r[0]))
  }

  /** rem leaves the grammar of an operation in the way of which e tells. */
  ghost predicate Breaks(rem: string, e: Error)
  {
    match e
    case TooManyOperations => false
    case TrailingCommaOrEmpty => rem == []
    case ExpectedInitialDigit => rem != [] && !IsDigit(rem[0])
    case ExpectedSign => exists num, r :: NoSign(rem, num, r)
    case ExpectedDigitAfterSign => exists num, sign, r :: NoValue(rem, num, sign, r)
    case ExpectedZero => exists num, value, r :: NotZero(rem, num, value, r)
    case BadTrailingCharacter => exists t, r :: BadEnd(rem, t, r)
  }

  // ---- One operation ----

  lemma ReadsNumber(num: string, r: string)
    requires AllDigits(num) && EndsDigits(r)
    ensures ParseOp(num + r) == ParseValue(num, r)
  {
    BreakExact(Digits, num, r);
    assert (num + r)[0] == num[0];
  }

  lemma ReadsValue(num: string, sign: char, value: string, r: string)
    requires AllDigits(num) && IsSign(sign) && AllDigits(value) && EndsDigits(r)
    ensures ParseOp(num + ([sign] + (value + r))) ==
            if sign == '=' && ToShort(Long(value)) != 0 then Err(ExpectedZero) else ParseFlags(num, sign, value, r)
  {
    var r1 := [sign] + (value + r);
    ReadsNumber(num, r1);
    assert r1[1..] == value + r && r1[1] == value[0];
    BreakExact(Digits, value, r);
  }

  lemma NoSignFails(rem: string, num: string, r: string)
    requires NoSign(rem, num, r)
    ensures ParseOp(rem) == Err(ExpectedSign)
  {
    ReadsNumber(num, r);
  }

  lemma NoValueFails(rem: string, num: string, sign: char, r: string)
    requires NoValue(rem, num, sign, r)
    ensures ParseOp(rem) == Err(ExpectedDigitAfterSign)
  {
    ReadsNumber(num, [sign] + r);
    assert ([sign] + r)[1..] == r;
  }

  lemma NotZeroFails(rem: string, num: string, value: string, r: string)
    requires NotZero(rem, num, value, r)
    ensures ParseOp(rem) == Err(ExpectedZero)
  {
    ReadsValue(num, '=', value, r);
  }

  lemma BadEndFails(rem: string, t: OpText, r: string)
    requires BadEnd(rem, t, r)
    ensures ParseOp(rem) == Err(BadTrailingCharacter)
  {
    Regroup(t, r);
    ReadsValue(t.num, t.sign, t.value, t.flags + r);
    BreakExact(Flags, t.flags, r);
  }

  lemma BreaksFails(rem: string, e: Error)
    requires Breaks(rem, e)
    ensures ParseOp(rem) == Err(e)
  {
    match e
    case TrailingCommaOrEmpty =>
    case ExpectedInitialDigit =>
    case ExpectedSign => var num, r :| NoSign(rem, num, r); NoSignFails(rem, num, r);
    case ExpectedDigitAfterSign => var num, sign, r :| NoValue(rem, num, sign, r); NoValueFails(rem, num, sign, r);
    case ExpectedZero => var num, value, r :| NotZero(rem, num, value, r); NotZeroFails(rem, num, value, r);
    case BadTrailingCharacter => var t, r :| BadEnd(rem, t, r); BadEndFails(rem, t, r);
  }

  lemma ValueBreaks(rem: string, num: string, r1: string)
    requires AllDigits(num) && rem == num + r1 && EndsDigits(r1) && ParseValue(num, r1).Err?
    ensures Breaks(rem, ParseValue(num, r1).error)
  {
    if r1 == [] || !IsSign(r1[0]) {
      assert NoSign(rem, num, r1);
    } else {
      var sign, r := r1[0], r1[1..];
      assert r1 == [sign] + r;
      if r == [] || !IsDigit(r[0]) {
        assert NoValue(rem, num, sign, r);
      } else {
        var (value, r2) := Break(Digits, r);
        AfterValueBreaks(rem, num, sign, value, r2);
      }
    }
  }

  lemma AfterValueBreaks(rem: string, num: string, sign: char, value: string, r2: string)
    requires AllDigits(num) && IsSign(sign) && AllDigits(value) && EndsDigits(r2)
    requires rem == num + ([sign] + (value + r2))
    ensures sign == '=' && ToShort(Long(value)) != 0 ==> Breaks(rem, ExpectedZero)
    ensures !(sign == '=' && ToShort(Long(value)) != 0) && ParseFlags(num, sign, value, r2).Err? ==>
            Breaks(rem, ParseFlags(num, sign, value, r2).error)
  {
    if sign == '=' && ToShort(Long(value)) != 0 {
      assert NotZero(rem, num, value, r2);
    } else {
      var (flags, r3) := Break(Flags, r2);
      var t := OpText(num, sign, value, flags);
      Regroup(t, r3);
      if r3 != [] && r3[0] != ',' {
        assert BadEnd(rem, t, r3);
      }
    }
  }

  /** The error of an operation is the one for the place at which its text leaves the grammar. */
  lemma FailsIffBreaks(rem: string, e: Error)
    ensures ParseOp(rem) == Err(e) <==> Breaks(rem, e)
  {
    if Breaks(rem, e) {
      BreaksFails(rem, e);
    }
    if ParseOp(rem) == Err(e) && rem != [] && IsDigit(rem[0]) {
      var (num, r1) := Break(Digits, rem);
      ValueBreaks(rem, num, r1);
    }
  }

  // ---- Whole arguments ----

  /** arg is the well-formed texts ts, with a comma behind each, and then rem. */
  predicate Reaches(arg: string, ts: seq<OpText>, rem: string)
  {
    if ts == [] then arg == rem
    else
      var first := Rendered(ts[0]) + ",";
      WellFormed(ts[0]) && first <= arg && Reaches(arg[|first|..], ts[1..], rem)
  }

  /** There: as many operations as are allowed, or a rest that leaves the grammar. */
  ghost predicate FailsAfter(arg: string, ts: seq<OpText>, rem: string, e: Error)
  {
    && Reaches(arg, ts, rem)
    && if |ts| == MAX_SEMOPS then e == TooManyOperations else |ts| < MAX_SEMOPS && Breaks(rem, e)
  }

  lemma ReachesFirst(t: OpText, rest: string)
    requires WellFormed(t)
    ensures Reaches(Rendered(t) + ("," + rest), [t], rest)
  {
    var arg, first := Rendered(t) + ("," + rest), Rendered(t) + ",";
    assert arg == first + rest && arg[|first|..] == rest;
  }

  lemma ReachesMore(arg: string, t: OpText, rest: string, us: seq<OpText>, rem: string) returns (ts: seq<OpText>)
    requires Reaches(arg, [t], rest) && Reaches(rest, us, rem)
    ensures |ts| == |us| + 1 && Reaches(arg, ts, rem)
  {
    ts := [t] + us;
    assert ts[1..] == us;
  }

  lemma ReachesLess(arg: string, ts: seq<OpText>, rem: string) returns (t: OpText, rest: string, us: seq<OpText>)
    requires ts != [] && Reaches(arg, ts, rem)
    ensures WellFormed(t) && arg == Rendered(t) + ("," + rest) && Reaches(rest, us, rem) && |us| == |ts| - 1
  {
    var first := Rendered(ts[0]) + ",";
    t, rest, us := ts[0], arg[|first|..], ts[1..];
    assert arg == first + rest == Rendered(t) + ("," + rest);
  }

  /** The error with n operations parsed, if there is one at the start of rem. */
  function ErrorAt(rem: string, n: nat): Option<Error>
  {
    if n >= MAX_SEMOPS then Some(TooManyOperations) else match ParseOp(rem) case Err(e) => Some(e) case Ok(_) => None
  }

  lemma ErrorNow(rem: string, n: nat, r: Result<seq<SemOp>>, e: Error)
    requires r == ParseFrom(rem, n) && ErrorAt(rem, n) == Some(e)
    ensures r == Err(e)
  {
  }

  /** Behind a well-formed text and a comma, an error is that of the rest. */
  lemma ErrorInRest(t: OpText, rest: string, n: nat, arg: string, r: Result<seq<SemOp>>)
    requires n < MAX_SEMOPS && WellFormed(t) && arg == Rendered(t) + ("," + rest) && r == ParseFrom(rest, n + 1)
    ensures r.Err? ==> ParseFrom(arg, n) == r
  {
    ParseOpComplete(t, "," + rest);
    CommaIsAtFlags(arg);
    AfterComma(arg, rest);
    ParseRest(arg, n);
  }

  lemma ErrorBehindFirst(arg: string, ts: seq<OpText>, rem: string, n: nat)
    returns (rest: string, us: seq<OpText>)
    requires ts != [] && Reaches(arg, ts, rem) && n < MAX_SEMOPS
    ensures Reaches(rest, us, rem) && |us| == |ts| - 1
    ensures ParseFrom(rest, n + 1).Err? ==> ParseFrom(arg, n) == ParseFrom(rest, n + 1)
  {
    var t;
    t, rest, us := ReachesLess(arg, ts, rem);
    ErrorInRest(t, rest, n, arg, ParseFrom(rest, n + 1));
  }

  lemma RestOfError(arg: string, n: nat, r: Result<seq<SemOp>>) returns (t: OpText, rest: string)
    requires ErrorAt(arg, n) == None && r == ParseFrom(arg, n) && r.Err?
    ensures |rest| < |arg| && Reaches(arg, [t], rest)
    ensures var q := ParseFrom(rest, n + 1); q == r
  {
    var comma;
    t, comma := FirstText(arg);
    if comma == |arg| {
      ParseLast(arg, n);
    }
    rest := arg[comma + 1..];
    ReachesFirst(t, rest);
    ParseRest(arg, n);
  }

  lemma FailsHere(arg: string, n: nat, r: Result<seq<SemOp>>)
    returns (ts: seq<OpText>, rem: string, k: nat, e: Option<Error>)
    requires n <= MAX_SEMOPS && ErrorAt(arg, n).Some? && r == ParseFrom(arg, n)
    ensures k == n + |ts| <= MAX_SEMOPS && Reaches(arg, ts, rem)
    ensures e == ErrorAt(rem, k) && r.Err? && e == Some(r.error)
  {
    ts, rem, k, e := [], arg, n, ErrorAt(arg, n);
    ErrorNow(arg, n, r, e.value);
  }

  lemma {:induction false} FailsThere(arg: string, n: nat, r: Result<seq<SemOp>>)
    returns (ts: seq<OpText>, rem: string, k: nat, e: Option<Error>)
    requires n < MAX_SEMOPS && ErrorAt(arg, n) == None && r == ParseFrom(arg, n) && r.Err?
    ensures k == n + |ts| <= MAX_SEMOPS && Reaches(arg, ts, rem)
    ensures e == ErrorAt(rem, k) && e == Some(r.error)
    decreases |arg|, 0
  {
    var t, rest := RestOfError(arg, n, r);
    var us;
    us, rem, k, e := FailSound(rest, n + 1, ParseFrom(rest, n + 1));
    ts := ReachesMore(arg, t, rest, us, rem);
  }

  lemma {:induction false} FailSound(arg: string, n: nat, r: Result<seq<SemOp>>)
    returns (ts: seq<OpText>, rem: string, k: nat, e: Option<Error>)
    requires n <= MAX_SEMOPS && r == ParseFrom(arg, n) && r.Err?
    ensures k == n + |ts| <= MAX_SEMOPS && Reaches(arg, ts, rem)
    ensures e == ErrorAt(rem, k) && e == Some(r.error)
    decreases |arg|, 1
  {
    if ErrorAt(arg, n).Some? {
      ts, rem, k, e := FailsHere(arg, n, r);
    } else {
      ts, rem, k, e := FailsThere(arg, n, r);
    }
  }

  /** An error behind some texts is that of the whole. */
  lemma {:induction false} FailComplete(arg: string, n: nat, ts: seq<OpText>, rem: string, k: nat,
                                        r: Result<seq<SemOp>>, all: Result<seq<SemOp>>)
    requires k == n + |ts| <= MAX_SEMOPS && Reaches(arg, ts, rem)
    requires all == ParseFrom(arg, n) && r == ParseFrom(rem, k) && r.Err?
    ensures all == r
    decreases |ts|
  {
    if ts != [] {
      var rest, us := ErrorBehindFirst(arg, ts, rem, n);
      FailComplete(rest, n + 1, us, rem, k, r, ParseFrom(rest, n + 1));
    }
  }

  /** An argument is refused with an error exactly if, behind some well-formed texts and their
      commas, it has more than 1000 operations or leaves the grammar in the way that the error
      names. */
  lemma ErrorIsFirstBreak(arg: string, e: Error)
    ensures ParseFrom(arg, 0) == Err(e) <==> exists ts: seq<OpText>, rem: string :: FailsAfter(arg, ts, rem, e)
  {
    if ts: seq<OpText>, rem: string :| FailsAfter(arg, ts, rem, e) {
      FailsIffBreaks(rem, e);
      ErrorNow(rem, |ts|, ParseFrom(rem, |ts|), e);
      FailComplete(arg, 0, ts, rem, |ts|, Err(e), ParseFrom(arg, 0));
    }
    if ParseFrom(arg, 0) == Err(e) {
      var ts, rem, k, first := FailSound(arg, 0, ParseFrom(arg, 0));
      FailsIffBreaks(rem, e);
      assert FailsAfter(arg, ts, rem, e);
    }
  }
}
