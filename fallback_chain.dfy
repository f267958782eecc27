/** The specification side of `read_csv_robust`: the attempts it may make,
    their priority order, the declarative "first success in priority order"
    result, and the schedule of oracle calls the orchestrator works through.

    Decoding (`bytes.decode`) and parsing (`pd.read_csv`) are foreign code;
    they appear here only as total function parameters that either succeed
    or fail with an error value:
      - `decode(enc, content)`  : Result<string, E>
      - `parse(text, sep)`      : Result<T, E>
    where T stands for the opaque table and E for the raised exception. */
module FallbackChain {

  newtype byte = x: int | 0 <= x < 256

  datatype Option<T> = None | Some(value: T)

  /** What an oracle call gives back: a value, or the exception it raised. */
  datatype Result<T, E> = Success(value: T) | Failure(error: E)

  /** What `read_csv_robust` gives back: the first table parsed, or a
      `RuntimeError` carrying the last error recorded. */
  datatype Outcome<T, E> = Returned(table: T) | Raised(lastError: E)

  /** The four text codecs tried, with the names the source passes to `decode`. */
  datatype Encoding = Utf8 | Utf8Sig | Cp1252 | Latin1
  {
    function Name(): string
    {
      match this
      case Utf8 => "utf-8"
      case Utf8Sig => "utf-8-sig"
      case Cp1252 => "cp1252"
      case Latin1 => "latin-1"
    }
  }

  /** The delimiter argument of one parse attempt: `Auto` is `sep=None`
      (delimiter sniffing), the others are the explicit separators. */
  datatype Sep = Auto | Comma | Semicolon | Tab | Pipe
  {
    function Arg(): Option<char>
    {
      match this
      case Auto => None
      case Comma => Some(',')
      case Semicolon => Some(';')
      case Tab => Some('\t')
      case Pipe => Some('|')
    }
  }

  datatype Pair = Pair(enc: Encoding, sep: Sep)

  /** One call into an oracle, as the orchestrator makes it. */
  datatype Call = DecodeCall(enc: Encoding) | ParseCall(enc: Encoding, sep: Sep)

  const Encodings: seq<Encoding> := [Utf8, Utf8Sig, Cp1252, Latin1]
  /** Auto-detection first, then the explicit delimiters `,` `;` `\t` `|`. */
  const Seps: seq<Sep> := [Auto, Comma, Semicolon, Tab, Pipe]

  /** The codec names and `sep` arguments, in the order they are tried. */
  lemma SourceArguments()
    ensures |Encodings| == 4 && |Seps| == 5
    ensures forall i :: 0 <= i < |Encodings| ==>
              Encodings[i].Name() == ["utf-8", "utf-8-sig", "cp1252", "latin-1"][i]
    ensures forall j :: 0 <= j < |Seps| ==>
              Seps[j].Arg() == [None, Some(','), Some(';'), Some('\t'), Some('|')][j]
  {
  }

  // ---------------------------------------------------------------------
  // The attempts and their priority order
  // ---------------------------------------------------------------------

  function Row(e: Encoding, seps: seq<Sep>): (ps: seq<Pair>)
  {
    seq(|seps|, j requires 0 <= j < |seps| => Pair(e, seps[j]))
  }

  /** All (encoding, delimiter) pairs of `encs`, encoding-major. */
  function Product(encs: seq<Encoding>): (ps: seq<Pair>)
    ensures |ps| == 5 * |encs|
  {
    if encs == [] then [] else Product(encs[..|encs| - 1]) + Row(encs[|encs| - 1], Seps)
  }

  /** Every attempt the orchestrator may make, in priority order. */
  function Pairs(): (ps: seq<Pair>)
  {
    Product(Encodings)
  }

  lemma {:induction false} ProductAt(encs: seq<Encoding>, i: int, j: int)
    requires 0 <= i < |encs| && 0 <= j < |Seps|
    ensures Product(encs)[5 * i + j] == Pair(encs[i], Seps[j])
  {
    var n := |encs|;
    var init := encs[..n - 1];
    assert Product(encs) == Product(init) + Row(encs[n - 1], Seps);
    if i < n - 1 {
      ProductAt(init, i, j);
      assert init[i] == encs[i];
    }
  }

  /** The attempts are ordered lexicographically by (encoding, delimiter):
      attempt number 5 * i + j is encoding i under delimiter j, and there are
      exactly 4 * 5 of them. */
  lemma PriorityOrder(i: int, j: int)
    requires 0 <= i < |Encodings| && 0 <= j < |Seps|
    ensures |Pairs()| == 20
    ensures 5 * i + j < 20 && Pairs()[5 * i + j] == Pair(Encodings[i], Seps[j])
  {
    ProductAt(Encodings, i, j);
  }

  // ---------------------------------------------------------------------
  // One attempt, and the declarative result
  // ---------------------------------------------------------------------

  /** The outcome of one (encoding, delimiter) attempt on its own: the
      decode error, or the parse of the whole decoded text. */
  function Attempt<T, E>(decode: (Encoding, seq<byte>) -> Result<string, E>,
                         parse: (string, Sep) -> Result<T, E>,
                         content: seq<byte>, p: Pair): (r: Result<T, E>)
  {
    match decode(p.enc, content)
    case Failure(e) => Failure(e)
    case Success(text) => parse(text, p.sep)
  }

  function Attempts<T, E>(decode: (Encoding, seq<byte>) -> Result<string, E>,
                          parse: (string, Sep) -> Result<T, E>,
                          content: seq<byte>, ps: seq<Pair>): (rs: seq<Result<T, E>>)
  {
    seq(|ps|, k requires 0 <= k < |ps| => Attempt(decode, parse, content, ps[k]))
  }

  /** The first success of a non-empty list of results, or the error of the
      last one when all of them failed. */
  function FirstOk<T, E>(rs: seq<Result<T, E>>): (o: Outcome<T, E>)
    requires |rs| > 0
  {
    if rs[0].Success? then Returned(rs[0].value)
    else if |rs| == 1 then Raised(rs[0].error)
    else FirstOk(rs[1..])
  }

  lemma {:induction false} FirstOkAt<T, E>(rs: seq<Result<T, E>>, k: int)
    requires 0 <= k < |rs| && rs[k].Success?
    requires forall j :: 0 <= j < k ==> rs[j].Failure?
    ensures FirstOk(rs) == Returned(rs[k].value)
  {
    if k > 0 {
      assert rs[0].Failure?;
      FirstOkAt(rs[1..], k - 1);
    }
  }

  lemma {:induction false} FirstOkReturned<T, E>(rs: seq<Result<T, E>>)
    requires |rs| > 0 && FirstOk(rs).Returned?
    ensures exists k :: 0 <= k < |rs| && rs[k] == Success(FirstOk(rs).table) &&
                        forall j :: 0 <= j < k ==> rs[j].Failure?
  {
    if rs[0].Success? {
      assert rs[0] == Success(FirstOk(rs).table);
    } else {
      FirstOkReturned(rs[1..]);
      var k :| 0 <= k < |rs[1..]| && rs[1..][k] == Success(FirstOk(rs[1..]).table) &&
               forall j :: 0 <= j < k ==> rs[1..][j].Failure?;
      assert rs[k + 1] == Success(FirstOk(rs).table);
      assert forall j :: 0 <= j < k + 1 ==> rs[j].Failure? by {
        forall j | 0 <= j < k + 1 ensures rs[j].Failure? {
          if j > 0 { assert rs[j] == rs[1..][j - 1]; }
        }
      }
    }
  }

  lemma {:induction false} FirstOkRaised<T, E>(rs: seq<Result<T, E>>)
    requires |rs| > 0
    ensures FirstOk(rs).Raised? <==> forall k :: 0 <= k < |rs| ==> rs[k].Failure?
    ensures FirstOk(rs).Raised? ==> FirstOk(rs).lastError == rs[|rs| - 1].error
  {
    if rs[0].Failure? && |rs| > 1 {
      FirstOkRaised(rs[1..]);
      assert forall k :: 1 <= k < |rs| ==> rs[k] == rs[1..][k - 1];
    }
  }

  /** The result `read_csv_robust` promises: the table of the first attempt,
      in priority order, whose decode and parse both succeed; otherwise the
      error of the last attempt. */
  function ReadSpec<T, E>(decode: (Encoding, seq<byte>) -> Result<string, E>,
                          parse: (string, Sep) -> Result<T, E>,
                          content: seq<byte>): (o: Outcome<T, E>)
  {
    FirstOk(Attempts(decode, parse, content, Pairs()))
  }

  /** (i', j') comes strictly before (i, j) in priority order. */
  predicate Before(i': int, j': int, i: int, j: int)
  {
    i' < i || (i' == i && j' < j)
  }

  /** Every attempt strictly before (i, j) in priority order failed. */
  predicate FailedBefore<T, E>(decode: (Encoding, seq<byte>) -> Result<string, E>,
                               parse: (string, Sep) -> Result<T, E>,
                               content: seq<byte>, i: int, j: int)
  {
    forall i', j' :: 0 <= i' < |Encodings| && 0 <= j' < |Seps| && Before(i', j', i, j) ==>
      Attempt(decode, parse, content, Pair(Encodings[i'], Seps[j'])).Failure?
  }

  lemma FailedBeforeNext<T, E>(decode: (Encoding, seq<byte>) -> Result<string, E>,
                               parse: (string, Sep) -> Result<T, E>,
                               content: seq<byte>, i: int, j: int)
    requires 0 <= i < |Encodings| && 0 <= j < |Seps|
    requires FailedBefore(decode, parse, content, i, j)
    requires Attempt(decode, parse, content, Pair(Encodings[i], Seps[j])).Failure?
    ensures FailedBefore(decode, parse, content, i, j + 1)
  {
  }

  /** Extending FailedBefore across the first k delimiters of a decoded
      encoding whose first k parses failed. */
  lemma {:induction false} FailedWithin<T, E>(decode: (Encoding, seq<byte>) -> Result<string, E>,
                                              parse: (string, Sep) -> Result<T, E>,
                                              content: seq<byte>, i: int, k: int)
    requires 0 <= i < |Encodings| && 0 <= k < |Seps| && decode(Encodings[i], content).Success?
    requires FailedBefore(decode, parse, content, i, 0)
    requires forall j :: 0 <= j < k ==> parse(decode(Encodings[i], content).value, Seps[j]).Failure?
    ensures FailedBefore(decode, parse, content, i, k)
  {
    if k > 0 {
      FailedWithin(decode, parse, content, i, k - 1);
      FailedBeforeNext(decode, parse, content, i, k - 1);
    }
  }

  /** Once all five attempts of encoding i failed, everything before
      encoding i + 1 failed. */
  lemma FailedRow<T, E>(decode: (Encoding, seq<byte>) -> Result<string, E>,
                        parse: (string, Sep) -> Result<T, E>,
                        content: seq<byte>, i: int)
    requires FailedBefore(decode, parse, content, i, |Seps|)
    ensures FailedBefore(decode, parse, content, i + 1, 0)
  {
  }

  /** An encoding that does not decode fails all five of its attempts. */
  lemma FailedDecode<T, E>(decode: (Encoding, seq<byte>) -> Result<string, E>,
                           parse: (string, Sep) -> Result<T, E>,
                           content: seq<byte>, i: int)
    requires 0 <= i < |Encodings| && decode(Encodings[i], content).Failure?
    requires FailedBefore(decode, parse, content, i, 0)
    ensures FailedBefore(decode, parse, content, i + 1, 0)
  {
  }

  /** First success wins: if attempt (i, j) succeeds and every attempt before
      it failed, the result is the parse of encoding i's text under
      delimiter j. */
  lemma FirstSuccessWins<T, E>(decode: (Encoding, seq<byte>) -> Result<string, E>,
                               parse: (string, Sep) -> Result<T, E>,
                               content: seq<byte>, i: int, j: int)
    requires 0 <= i < |Encodings| && 0 <= j < |Seps|
    requires Attempt(decode, parse, content, Pair(Encodings[i], Seps[j])).Success?
    requires FailedBefore(decode, parse, content, i, j)
    ensures decode(Encodings[i], content).Success?
    ensures ReadSpec(decode, parse, content) ==
            Returned(parse(decode(Encodings[i], content).value, Seps[j]).value)
  {
    var rs := Attempts(decode, parse, content, Pairs());
    PriorityOrder(i, j);
    forall k | 0 <= k < 5 * i + j ensures rs[k].Failure? {
      PriorityOrder(k / 5, k % 5);
      assert Before(k / 5, k % 5, i, j);
    }
    FirstOkAt(rs, 5 * i + j);
  }

  /** The converse: a returned table is the parse of some attempt (i, j)
      that succeeded, and every attempt before it failed. */
  lemma ReturnedIsFirstSuccess<T, E>(decode: (Encoding, seq<byte>) -> Result<string, E>,
                                     parse: (string, Sep) -> Result<T, E>,
                                     content: seq<byte>)
    requires ReadSpec(decode, parse, content).Returned?
    ensures exists i, j :: 0 <= i < |Encodings| && 0 <= j < |Seps| &&
              Attempt(decode, parse, content, Pair(Encodings[i], Seps[j])) ==
                Success(ReadSpec(decode, parse, content).table) &&
              forall i', j' :: 0 <= i' < |Encodings| && 0 <= j' < |Seps| && Before(i', j', i, j) ==>
                Attempt(decode, parse, content, Pair(Encodings[i'], Seps[j'])).Failure?
  {
    var rs := Attempts(decode, parse, content, Pairs());
    PriorityOrder(0, 0);
    FirstOkReturned(rs);
    var k :| 0 <= k < |rs| && rs[k] == Success(FirstOk(rs).table) &&
             forall j :: 0 <= j < k ==> rs[j].Failure?;
    var i, j := k / 5, k % 5;
    PriorityOrder(i, j);
    forall i', j' | 0 <= i' < |Encodings| && 0 <= j' < |Seps| && Before(i', j', i, j)
      ensures Attempt(decode, parse, content, Pair(Encodings[i'], Seps[j'])).Failure?
    {
      PriorityOrder(i', j');
      assert rs[5 * i' + j'].Failure?;
    }
  }

  /** Failure means every attempt failed, and conversely; the error then
      reported is that of the last attempt (latin-1 under `|`): latin-1's
      decode error if it did not decode, else its `|` parse error. */
  lemma RaisedIffAllFail<T, E>(decode: (Encoding, seq<byte>) -> Result<string, E>,
                               parse: (string, Sep) -> Result<T, E>,
                               content: seq<byte>)
    ensures ReadSpec(decode, parse, content).Raised? <==>
            FailedBefore(decode, parse, content, |Encodings|, 0)
    ensures ReadSpec(decode, parse, content).Raised? && decode(Latin1, content).Failure? ==>
            ReadSpec(decode, parse, content).lastError == decode(Latin1, content).error
    ensures ReadSpec(decode, parse, content).Raised? && decode(Latin1, content).Success? ==>
            parse(decode(Latin1, content).value, Pipe) == Failure(ReadSpec(decode, parse, content).lastError)
  {
    var rs := Attempts(decode, parse, content, Pairs());
    FirstOkRaised(rs);
    PriorityOrder(3, 4);
    AllAttemptsFail(decode, parse, content);
  }

  /** All 20 attempts, indexed by position or by (encoding, delimiter), fail alike. */
  lemma AllAttemptsFail<T, E>(decode: (Encoding, seq<byte>) -> Result<string, E>,
                              parse: (string, Sep) -> Result<T, E>,
                              content: seq<byte>)
    ensures |Attempts(decode, parse, content, Pairs())| == 20
    ensures (forall k :: 0 <= k < 20 ==> Attempts(decode, parse, content, Pairs())[k].Failure?) <==>
            FailedBefore(decode, parse, content, |Encodings|, 0)
  {
    var rs := Attempts(decode, parse, content, Pairs());
    PriorityOrder(0, 0);
    if forall k :: 0 <= k < 20 ==> rs[k].Failure? {
      forall i, j | 0 <= i < |Encodings| && 0 <= j < |Seps|
        ensures Attempt(decode, parse, content, Pair(Encodings[i], Seps[j])).Failure?
      {
        PriorityOrder(i, j);
        assert rs[5 * i + j].Failure?;
      }
    }
    if FailedBefore(decode, parse, content, |Encodings|, 0) {
      forall k | 0 <= k < 20 ensures rs[k].Failure? {
        PriorityOrder(k / 5, k % 5);
        assert Before(k / 5, k % 5, |Encodings|, 0);
      }
    }
  }

  /** A buffer that decodes under none of the four codecs fails with the
      decode error of the last one, latin-1. */
  lemma NoEncodingDecodes<T, E>(decode: (Encoding, seq<byte>) -> Result<string, E>,
                                parse: (string, Sep) -> Result<T, E>,
                                content: seq<byte>)
    requires forall e :: decode(e, content).Failure?
    ensures ReadSpec(decode, parse, content) == Raised(decode(Latin1, content).error)
  {
    RaisedIffAllFail(decode, parse, content);
  }

  /** The error reported is the most recent one, not the first: when every
      codec fails with an error naming itself, the error raised names
      latin-1, the last codec tried, and not utf-8, the first. */
  lemma LastErrorIsReported(content: seq<byte>)
    ensures ReadSpec((e: Encoding, b: seq<byte>) => Failure(e),
                     (t: string, s: Sep) => Success(t), content) == Raised(Latin1)
  {
    NoEncodingDecodes((e: Encoding, b: seq<byte>) => Failure(e),
                      (t: string, s: Sep) => Success(t), content);
  }

  // ---------------------------------------------------------------------
  // The schedule of oracle calls
  // ---------------------------------------------------------------------

  function ParseCalls(e: Encoding, seps: seq<Sep>): (cs: seq<Call>)
  {
    seq(|seps|, j requires 0 <= j < |seps| => ParseCall(e, seps[j]))
  }

  /** The calls made under one encoding when none of its parses succeeds:
      the decode, then the five parses only if the decode succeeded. */
  function Block<E>(decode: (Encoding, seq<byte>) -> Result<string, E>,
                    content: seq<byte>, e: Encoding): (cs: seq<Call>)
  {
    [DecodeCall(e)] + (if decode(e, content).Success? then ParseCalls(e, Seps) else [])
  }

  /** The calls made under `encs` when no parse succeeds. */
  function Schedule<E>(decode: (Encoding, seq<byte>) -> Result<string, E>,
                       content: seq<byte>, encs: seq<Encoding>): (cs: seq<Call>)
  {
    if encs == [] then []
    else Schedule(decode, content, encs[..|encs| - 1]) + Block(decode, content, encs[|encs| - 1])
  }

  /** The call that ends the run: a parse whose attempt succeeds. */
  predicate Returns<T, E>(decode: (Encoding, seq<byte>) -> Result<string, E>,
                          parse: (string, Sep) -> Result<T, E>,
                          content: seq<byte>, c: Call)
  {
    c.ParseCall? && Attempt(decode, parse, content, Pair(c.enc, c.sep)).Success?
  }

  /** No call of `calls` would have ended the run. */
  predicate NoneReturn<T, E>(decode: (Encoding, seq<byte>) -> Result<string, E>,
                             parse: (string, Sep) -> Result<T, E>,
                             content: seq<byte>, calls: seq<Call>)
  {
    forall m :: 0 <= m < |calls| ==> !Returns(decode, parse, content, calls[m])
  }

  lemma NoneReturnAppend<T, E>(decode: (Encoding, seq<byte>) -> Result<string, E>,
                               parse: (string, Sep) -> Result<T, E>,
                               content: seq<byte>, a: seq<Call>, b: seq<Call>)
    requires NoneReturn(decode, parse, content, a) && NoneReturn(decode, parse, content, b)
    ensures NoneReturn(decode, parse, content, a + b)
  {
    forall m | 0 <= m < |a + b| ensures !Returns(decode, parse, content, (a + b)[m]) {
      if m >= |a| { assert (a + b)[m] == b[m - |a|]; }
    }
  }

  lemma ParseCallsSnoc(e: Encoding, n: int)
    requires 0 <= n < |Seps|
    ensures ParseCalls(e, Seps[..n + 1]) == ParseCalls(e, Seps[..n]) + [ParseCall(e, Seps[n])]
  {
  }

  lemma ParseCallsPrefix(e: Encoding, n: int)
    requires 0 <= n <= |Seps|
    ensures ParseCalls(e, Seps[..n]) <= ParseCalls(e, Seps)
  {
  }

  lemma ScheduleStep<E>(decode: (Encoding, seq<byte>) -> Result<string, E>,
                        content: seq<byte>, encs: seq<Encoding>, i: int)
    requires 0 <= i < |encs|
    ensures Schedule(decode, content, encs[..i + 1]) ==
            Schedule(decode, content, encs[..i]) + Block(decode, content, encs[i])
  {
    assert encs[..i + 1][..i] == encs[..i];
  }

  lemma {:induction false} ScheduleSplit<E>(decode: (Encoding, seq<byte>) -> Result<string, E>,
                                            content: seq<byte>, a: seq<Encoding>, b: seq<Encoding>)
    ensures Schedule(decode, content, a + b) == Schedule(decode, content, a) + Schedule(decode, content, b)
  {
    if b == [] {
      assert a + b == a;
    } else {
      var n := |b|;
      assert (a + b)[..|a + b| - 1] == a + b[..n - 1];
      ScheduleSplit(decode, content, a, b[..n - 1]);
    }
  }

  /** Extending the calls made under the first i encodings by a prefix of
      encoding i's block stays a prefix of the whole schedule. */
  lemma PrefixOfSchedule<E>(decode: (Encoding, seq<byte>) -> Result<string, E>,
                            content: seq<byte>, i: int, extra: seq<Call>)
    requires 0 <= i < |Encodings| && extra <= Block(decode, content, Encodings[i])
    ensures Schedule(decode, content, Encodings[..i]) + extra <= Schedule(decode, content, Encodings)
  {
    ScheduleStep(decode, content, Encodings, i);
    assert Encodings == Encodings[..i + 1] + Encodings[i + 1..];
    ScheduleSplit(decode, content, Encodings[..i + 1], Encodings[i + 1..]);
  }

  // ---------------------------------------------------------------------
  // The three ways one turn of the encoding loop can end. Each takes the
  // state before the turn (calls made under the first i encodings, none of
  // which returned, all attempts of those encodings failed) to the state
  // after it.
  // ---------------------------------------------------------------------

  /** Encoding i does not decode: only its decode call is made. */
  lemma TurnDecodeFails<T, E>(decode: (Encoding, seq<byte>) -> Result<string, E>,
                              parse: (string, Sep) -> Result<T, E>,
                              content: seq<byte>, i: int, before: seq<Call>)
    requires 0 <= i < |Encodings| && decode(Encodings[i], content).Failure?
    requires before == Schedule(decode, content, Encodings[..i])
    requires NoneReturn(decode, parse, content, before)
    requires FailedBefore(decode, parse, content, i, 0)
    ensures before + [DecodeCall(Encodings[i])] == Schedule(decode, content, Encodings[..i + 1])
    ensures NoneReturn(decode, parse, content, before + [DecodeCall(Encodings[i])])
    ensures FailedBefore(decode, parse, content, i + 1, 0)
    ensures Attempt(decode, parse, content, Pair(Encodings[i], Pipe)) ==
            Failure(decode(Encodings[i], content).error)
  {
    ScheduleStep(decode, content, Encodings, i);
    FailedDecode(decode, parse, content, i);
    NoneReturnAppend(decode, parse, content, before, [DecodeCall(Encodings[i])]);
  }

  /** Encoding i decodes and all five of its parses fail. */
  lemma TurnExhausted<T, E>(decode: (Encoding, seq<byte>) -> Result<string, E>,
                            parse: (string, Sep) -> Result<T, E>,
                            content: seq<byte>, i: int, before: seq<Call>, tried: seq<Call>)
    requires 0 <= i < |Encodings| && decode(Encodings[i], content).Success?
    requires before == Schedule(decode, content, Encodings[..i])
    requires NoneReturn(decode, parse, content, before)
    requires FailedBefore(decode, parse, content, i, 0)
    requires tried == ParseCalls(Encodings[i], Seps)
    requires forall j :: 0 <= j < |Seps| ==> parse(decode(Encodings[i], content).value, Seps[j]).Failure?
    ensures before + [DecodeCall(Encodings[i])] + tried == Schedule(decode, content, Encodings[..i + 1])
    ensures NoneReturn(decode, parse, content, before + [DecodeCall(Encodings[i])] + tried)
    ensures FailedBefore(decode, parse, content, i + 1, 0)
  {
    ScheduleStep(decode, content, Encodings, i);
    FailedWithin(decode, parse, content, i, |Seps| - 1);
    FailedBeforeNext(decode, parse, content, i, |Seps| - 1);
    FailedRow(decode, parse, content, i);
    NoneReturnAppend(decode, parse, content, before, [DecodeCall(Encodings[i])] + tried);
    assert before + [DecodeCall(Encodings[i])] + tried == before + ([DecodeCall(Encodings[i])] + tried);
  }

  /** Encoding i decodes and its n-th parse is the first to succeed: the
      declarative result is that parse's table. */
  lemma TurnReturnsTable<T, E>(decode: (Encoding, seq<byte>) -> Result<string, E>,
                               parse: (string, Sep) -> Result<T, E>,
                               content: seq<byte>, i: int, n: int)
    requires 0 <= i < |Encodings| && decode(Encodings[i], content).Success?
    requires FailedBefore(decode, parse, content, i, 0)
    requires 0 < n <= |Seps|
    requires forall j :: 0 <= j < n - 1 ==> parse(decode(Encodings[i], content).value, Seps[j]).Failure?
    requires parse(decode(Encodings[i], content).value, Seps[n - 1]).Success?
    ensures ReadSpec(decode, parse, content) ==
            Returned(parse(decode(Encodings[i], content).value, Seps[n - 1]).value)
  {
    FailedWithin(decode, parse, content, i, n - 1);
    FirstSuccessWins(decode, parse, content, i, n - 1);
  }

  /** The calls of a run that returns at the n-th parse of encoding i follow
      the schedule, and only the last of them returns. */
  lemma TurnReturnsCalls<T, E>(decode: (Encoding, seq<byte>) -> Result<string, E>,
                               parse: (string, Sep) -> Result<T, E>,
                               content: seq<byte>, i: int, before: seq<Call>, tried: seq<Call>)
    requires 0 <= i < |Encodings| && decode(Encodings[i], content).Success?
    requires before == Schedule(decode, content, Encodings[..i])
    requires NoneReturn(decode, parse, content, before)
    requires 0 < |tried| <= |Seps| && tried == ParseCalls(Encodings[i], Seps[..|tried|])
    requires forall j :: 0 <= j < |tried| - 1 ==> parse(decode(Encodings[i], content).value, Seps[j]).Failure?
    requires parse(decode(Encodings[i], content).value, Seps[|tried| - 1]).Success?
    ensures var calls := before + [DecodeCall(Encodings[i])] + tried;
            calls <= Schedule(decode, content, Encodings) &&
            NoneReturn(decode, parse, content, calls[..|calls| - 1]) &&
            Returns(decode, parse, content, calls[|calls| - 1])
  {
    var enc := Encodings[i];
    var calls := before + [DecodeCall(enc)] + tried;
    ParseCallsPrefix(enc, |tried|);
    PrefixOfSchedule(decode, content, i, [DecodeCall(enc)] + tried);
    assert calls == before + ([DecodeCall(enc)] + tried);
    NoneReturnAppend(decode, parse, content, before, [DecodeCall(enc)] + tried[..|tried| - 1]);
    assert calls[..|calls| - 1] == before + ([DecodeCall(enc)] + tried[..|tried| - 1]);
    assert calls[|calls| - 1] == tried[|tried| - 1] == ParseCall(enc, Seps[|tried| - 1]);
  }

  /** Every encoding was tried and every attempt failed. */
  lemma RunExhausted<T, E>(decode: (Encoding, seq<byte>) -> Result<string, E>,
                           parse: (string, Sep) -> Result<T, E>,
                           content: seq<byte>, calls: seq<Call>, lastErr: E)
    requires calls == Schedule(decode, content, Encodings[..|Encodings|])
    requires NoneReturn(decode, parse, content, calls)
    requires FailedBefore(decode, parse, content, |Encodings|, 0)
    requires Attempt(decode, parse, content, Pair(Latin1, Pipe)) == Failure(lastErr)
    ensures ReadSpec(decode, parse, content) == Raised(lastErr)
    ensures calls == Schedule(decode, content, Encodings)
    ensures |calls| > 0
    ensures NoneReturn(decode, parse, content, calls[..|calls| - 1])
    ensures !Returns(decode, parse, content, calls[|calls| - 1])
  {
    assert Encodings[..|Encodings|] == Encodings;
    RaisedIffAllFail(decode, parse, content);
    ScheduleCounts(decode, content, Encodings);
    assert DecodeCount(calls) > 0;
  }

  /** Which calls the schedule holds: one decode per encoding, and a parse
      under an encoding exactly when that encoding decoded. */
  lemma {:induction false} ScheduleMembers<E>(decode: (Encoding, seq<byte>) -> Result<string, E>,
                                              content: seq<byte>, encs: seq<Encoding>, e: Encoding, s: Sep)
    ensures DecodeCall(e) in Schedule(decode, content, encs) <==> e in encs
    ensures ParseCall(e, s) in Schedule(decode, content, encs) <==>
            e in encs && s in Seps && decode(e, content).Success?
  {
    if encs != [] {
      var n := |encs|;
      ScheduleMembers(decode, content, encs[..n - 1], e, s);
      assert encs == encs[..n - 1] + [encs[n - 1]];
      assert ParseCall(e, s) in ParseCalls(e, Seps) <==> s in Seps by {
        if s in Seps {
          var j :| 0 <= j < |Seps| && Seps[j] == s;
          assert ParseCalls(e, Seps)[j] == ParseCall(e, s);
        }
      }
    }
  }

  /** Decode failure skips the encoding: no parse is ever scheduled under it. */
  lemma DecodeFailureSkips<E>(decode: (Encoding, seq<byte>) -> Result<string, E>,
                              content: seq<byte>, e: Encoding, s: Sep)
    requires decode(e, content).Failure?
    ensures DecodeCall(e) in Schedule(decode, content, Encodings)
    ensures ParseCall(e, s) !in Schedule(decode, content, Encodings)
  {
    ScheduleMembers(decode, content, Encodings, e, s);
    assert e in Encodings by { match e case Utf8 => {} case Utf8Sig => {} case Cp1252 => {} case Latin1 => {} }
  }

  /** Reaching the decode of encoding i + 1 means the whole schedule of the
      encodings up to i was made before it. */
  lemma ReachedNext<E>(decode: (Encoding, seq<byte>) -> Result<string, E>,
                       content: seq<byte>, calls: seq<Call>, i: int)
    requires calls <= Schedule(decode, content, Encodings)
    requires 0 <= i < |Encodings| - 1 && DecodeCall(Encodings[i + 1]) in calls
    ensures |Schedule(decode, content, Encodings[..i + 1])| < |calls|
    ensures Schedule(decode, content, Encodings[..i + 1]) == calls[..|Schedule(decode, content, Encodings[..i + 1])|]
  {
    var full := Schedule(decode, content, Encodings);
    var done := Schedule(decode, content, Encodings[..i + 1]);
    assert Encodings == Encodings[..i + 1] + Encodings[i + 1..];
    ScheduleSplit(decode, content, Encodings[..i + 1], Encodings[i + 1..]);
    var m :| 0 <= m < |calls| && calls[m] == DecodeCall(Encodings[i + 1]);
    ScheduleMembers(decode, content, Encodings[..i + 1], Encodings[i + 1], Auto);
    assert Encodings[i + 1] !in Encodings[..i + 1];
    assert |done| <= m;
  }

  /** Where the five parses of a decoded encoding i sit in the schedule. */
  lemma BlockLayout<E>(decode: (Encoding, seq<byte>) -> Result<string, E>,
                       content: seq<byte>, i: int, j: int)
    requires 0 <= i < |Encodings| && decode(Encodings[i], content).Success? && 0 <= j < |Seps|
    ensures var base := |Schedule(decode, content, Encodings[..i])| + 1;
            base + j < |Schedule(decode, content, Encodings[..i + 1])| &&
            Schedule(decode, content, Encodings[..i + 1])[base + j] == ParseCall(Encodings[i], Seps[j])
  {
    ScheduleStep(decode, content, Encodings, i);
  }

  /** Next encoding only after exhaustion: in a run that follows the
      schedule and stops at the first returning call, reaching the decode of
      encoding i + 1 means all five parses of a decoded encoding i were made
      and failed. */
  lemma ExhaustedBeforeNext<T, E>(decode: (Encoding, seq<byte>) -> Result<string, E>,
                                  parse: (string, Sep) -> Result<T, E>,
                                  content: seq<byte>, calls: seq<Call>, i: int)
    requires calls <= Schedule(decode, content, Encodings)
    requires |calls| > 0 && NoneReturn(decode, parse, content, calls[..|calls| - 1])
    requires 0 <= i < |Encodings| - 1 && DecodeCall(Encodings[i + 1]) in calls
    requires decode(Encodings[i], content).Success?
    ensures forall s :: s in Seps ==>
              ParseCall(Encodings[i], s) in calls &&
              Attempt(decode, parse, content, Pair(Encodings[i], s)).Failure?
  {
    ReachedNext(decode, content, calls, i);
    var done := Schedule(decode, content, Encodings[..i + 1]);
    var base := |Schedule(decode, content, Encodings[..i])| + 1;
    forall s | s in Seps
      ensures ParseCall(Encodings[i], s) in calls
      ensures Attempt(decode, parse, content, Pair(Encodings[i], s)).Failure?
    {
      var j :| 0 <= j < |Seps| && Seps[j] == s;
      BlockLayout(decode, content, i, j);
      assert calls[base + j] == done[base + j];
      assert calls[..|calls| - 1][base + j] == ParseCall(Encodings[i], s);
    }
  }

  function DecodeCount(calls: seq<Call>): (k: nat)
  {
    if calls == [] then 0
    else DecodeCount(calls[..|calls| - 1]) + (if calls[|calls| - 1].DecodeCall? then 1 else 0)
  }

  function ParseCount(calls: seq<Call>): (k: nat)
  {
    if calls == [] then 0
    else ParseCount(calls[..|calls| - 1]) + (if calls[|calls| - 1].ParseCall? then 1 else 0)
  }

  lemma {:induction false} CountAppend(a: seq<Call>, b: seq<Call>)
    ensures DecodeCount(a + b) == DecodeCount(a) + DecodeCount(b)
    ensures ParseCount(a + b) == ParseCount(a) + ParseCount(b)
  {
    if b == [] {
      assert a + b == a;
    } else {
      var n := |b|;
      assert (a + b)[..|a + b| - 1] == a + b[..n - 1];
      CountAppend(a, b[..n - 1]);
    }
  }

  lemma {:induction false} ParseCallsCount(e: Encoding, seps: seq<Sep>)
    ensures DecodeCount(ParseCalls(e, seps)) == 0
    ensures ParseCount(ParseCalls(e, seps)) == |seps|
  {
    if seps != [] {
      var n := |seps|;
      assert ParseCalls(e, seps)[..n - 1] == ParseCalls(e, seps[..n - 1]);
      ParseCallsCount(e, seps[..n - 1]);
    }
  }

  lemma {:induction false} ScheduleCounts<E>(decode: (Encoding, seq<byte>) -> Result<string, E>,
                                             content: seq<byte>, encs: seq<Encoding>)
    ensures DecodeCount(Schedule(decode, content, encs)) == |encs|
    ensures ParseCount(Schedule(decode, content, encs)) <= |Seps| * |encs|
  {
    if encs != [] {
      var n := |encs|;
      var e := encs[n - 1];
      ScheduleCounts(decode, content, encs[..n - 1]);
      ParseCallsCount(e, Seps);
      CountAppend([DecodeCall(e)], if decode(e, content).Success? then ParseCalls(e, Seps) else []);
      CountAppend(Schedule(decode, content, encs[..n - 1]), Block(decode, content, e));
      assert DecodeCount([DecodeCall(e)]) == 1 by { assert [DecodeCall(e)][..0] == []; }
      assert ParseCount([DecodeCall(e)]) == 0 by { assert [DecodeCall(e)][..0] == []; }
    }
  }

  /** Bounded work: a run makes at most 4 decode calls and at most
      4 * 5 = 20 parse calls, even when every attempt fails. */
  lemma BoundedWork<E>(decode: (Encoding, seq<byte>) -> Result<string, E>,
                       content: seq<byte>, calls: seq<Call>)
    requires calls <= Schedule(decode, content, Encodings)
    ensures DecodeCount(calls) <= 4 && ParseCount(calls) <= 20
    ensures |calls| <= 24
  {
    var full := Schedule(decode, content, Encodings);
    ScheduleCounts(decode, content, Encodings);
    assert full == calls + full[|calls|..];
    CountAppend(calls, full[|calls|..]);
    CallsCounted(full);
  }

  lemma {:induction false} CallsCounted(calls: seq<Call>)
    ensures |calls| == DecodeCount(calls) + ParseCount(calls)
  {
    if calls != [] {
      CallsCounted(calls[..|calls| - 1]);
    }
  }
}
