/**
 What the service answers. The TCP handler reads one payload, strips it,
 reads it with int(), runs the primality test and sends back one sentence;
 the HTTP route /check_prime does the same with the "numero" field of its
 JSON body. Both use the same sentences for a number and differ only in the
 error sentence, and in what happens to an empty input.
 */
module Replies {
  import opened Wrappers
  import opened Numerals
  import Primality

  const Lead := "El número "
  const PrimeTail := " es primo"
  const NotPrimeTail := " no es primo"
  /** The TCP handler's answer to text that is not an integer. */
  const TcpError := "Error: Entrada no es un número entero."
  /** The HTTP route's answer to a field that is not an integer. */
  const HttpError := "Error: Por favor introduce un número entero válido."

  /** The outcome for one input: a number found prime, a number found not
      prime, or input that is not an integer. */
  datatype Verdict = Prime(n: int) | NotPrime(n: int) | NotAnInteger

  /** The verdict on an integer already read. */
  function Judge(n: int): (v: Verdict)
    ensures v == Prime(n) || v == NotPrime(n)
    ensures v.Prime? <==> Primality.Prime(n)
  {
    if Primality.IsPrime(n) then Prime(n) else NotPrime(n)
  }

  /** The verdict on a text: int(text), then the primality test. */
  function Classify(text: string): (v: Verdict)
    ensures v.NotAnInteger? <==> ParseInt(text) == None
    ensures v.Prime? ==> ParseInt(text) == Some(v.n) && Primality.Prime(v.n)
    ensures v.NotPrime? ==> ParseInt(text) == Some(v.n) && !Primality.Prime(v.n)
  {
    match ParseInt(text)
    case None => NotAnInteger
    case Some(n) => Judge(n)
  }

  /** The sentence sent back for a verdict; `error` is the interface's own
      sentence for input that is not an integer. */
  function Message(v: Verdict, error: string): (m: string)
    ensures v.NotAnInteger? ==> m == error
    ensures v.Prime? ==> Frames(m, PrimeTail) && Middle(m, PrimeTail) == Decimal(v.n)
    ensures v.NotPrime? ==> Frames(m, NotPrimeTail) && Middle(m, NotPrimeTail) == Decimal(v.n)
  {
    match v
    case Prime(n) =>
      MessageFrames(n, PrimeTail);
      Lead + Decimal(n) + PrimeTail
    case NotPrime(n) =>
      MessageFrames(n, NotPrimeTail);
      Lead + Decimal(n) + NotPrimeTail
    case NotAnInteger => error
  }

  /** m is Lead, then a canonical integer text, then `tail`. */
  predicate Frames(m: string, tail: string) {
    && |m| > |Lead| + |tail|
    && m[..|Lead|] == Lead
    && m[|m| - |tail|..] == tail
    && Canonical(m[|Lead|..|m| - |tail|])
  }

  /** The integer text a framed sentence carries. */
  function Middle(m: string, tail: string): string
    requires |m| >= |Lead| + |tail|
  {
    m[|Lead|..|m| - |tail|]
  }

  /** Reads a sentence back into the verdict it reports, as a client of
      either interface would; None for a sentence the service never sends. */
  function ReadMessage(m: string, error: string): Option<Verdict> {
    if m == error then
      Some(NotAnInteger)
    else if Frames(m, NotPrimeTail) && ParseInt(Middle(m, NotPrimeTail)).Some? then
      Some(NotPrime(ParseInt(Middle(m, NotPrimeTail)).value))
    else if Frames(m, PrimeTail) && ParseInt(Middle(m, PrimeTail)).Some? then
      Some(Prime(ParseInt(Middle(m, PrimeTail)).value))
    else
      None
  }

  /** The service's two error sentences. */
  predicate IsErrorSentence(e: string) {
    e == TcpError || e == HttpError
  }

  /** The three parts of a concatenation, recovered by slicing. */
  lemma Slices(a: string, b: string, c: string)
    ensures (a + b + c)[..|a|] == a
    ensures (a + b + c)[|a + b + c| - |c|..] == c
    ensures (a + b + c)[|a|..|a + b + c| - |c|] == b
  {
  }

  /** A sentence about a number frames its decimal text with its tail. */
  lemma MessageFrames(n: int, tail: string)
    requires tail == PrimeTail || tail == NotPrimeTail
    ensures Frames(Lead + Decimal(n) + tail, tail)
    ensures Middle(Lead + Decimal(n) + tail, tail) == Decimal(n)
  {
    Slices(Lead, Decimal(n), tail);
  }

  /** A sentence reporting a prime does not end in the not-prime tail: the
      character before " es primo" is the last digit, not the 'o' of " no". */
  lemma DigitBeforeTail(d: string)
    requires |d| > 0 && IsDigit(d[|d| - 1])
    ensures var m := Lead + d + PrimeTail;
      |m| >= |NotPrimeTail| && m[|m| - |NotPrimeTail|..] != NotPrimeTail
    ensures !Frames(Lead + d + PrimeTail, NotPrimeTail)
  {
    var m := Lead + d + PrimeTail;
    assert |PrimeTail| == 9 && |NotPrimeTail| == 12;
    assert m[|m| - 10] == d[|d| - 1];
    assert NotPrimeTail[2] == 'o';
    assert m[|m| - 12..][2] == m[|m| - 10];
  }

  lemma PrimeSentenceIsNotNotPrime(n: int)
    ensures !Frames(Lead + Decimal(n) + PrimeTail, NotPrimeTail)
  {
    CanonicalEndsInDigit(Decimal(n));
    DigitBeforeTail(Decimal(n));
  }

  /** Every sentence about a number starts "El", unlike either error sentence. */
  lemma SentenceStart(d: string, tail: string)
    ensures |Lead + d + tail| > 2 && (Lead + d + tail)[1] == 'l'
  {
  }

  lemma NotErrorSentence(m: string, e: string)
    requires |m| > 2 && m[1] == 'l'
    requires IsErrorSentence(e)
    ensures m != e
  {
    assert e[1] == 'r';
  }

  /** Reading a sentence back recovers the verdict it was written from. */
  lemma ReadMessageInverts(v: Verdict, e: string)
    requires IsErrorSentence(e)
    ensures ReadMessage(Message(v, e), e) == Some(v)
  {
    match v
    case NotAnInteger =>
    case Prime(n) =>
      SentenceStart(Decimal(n), PrimeTail);
      NotErrorSentence(Message(v, e), e);
      MessageFrames(n, PrimeTail);
      PrimeSentenceIsNotNotPrime(n);
    case NotPrime(n) =>
      SentenceStart(Decimal(n), NotPrimeTail);
      NotErrorSentence(Message(v, e), e);
      MessageFrames(n, NotPrimeTail);
  }

  /** A sentence is put back together from its three slices. */
  lemma Reassemble(m: string, tail: string)
    requires |m| >= |Lead| + |tail|
    ensures m == m[..|Lead|] + Middle(m, tail) + m[|m| - |tail|..]
  {
  }

  /** Conversely, every sentence that reads back as a verdict is exactly the
      sentence the service writes for that verdict. */
  lemma ReadMessageSound(m: string, e: string, v: Verdict)
    requires ReadMessage(m, e) == Some(v)
    ensures m == Message(v, e)
  {
    if m != e {
      if Frames(m, NotPrimeTail) && ParseInt(Middle(m, NotPrimeTail)).Some? {
        FramedSound(m, NotPrimeTail, v.n);
      } else {
        FramedSound(m, PrimeTail, v.n);
      }
    }
  }

  /** A framed sentence whose middle reads as n is the sentence about n. */
  lemma FramedSound(m: string, tail: string, n: int)
    requires Frames(m, tail) && ParseInt(Middle(m, tail)) == Some(n)
    ensures m == Lead + Decimal(n) + tail
  {
    DecimalUnique(Middle(m, tail), n);
    Reassemble(m, tail);
  }

  /** Different verdicts never produce the same sentence. */
  lemma MessageInjective(v1: Verdict, v2: Verdict, e: string)
    requires IsErrorSentence(e)
    requires Message(v1, e) == Message(v2, e)
    ensures v1 == v2
  {
    ReadMessageInverts(v1, e);
    ReadMessageInverts(v2, e);
  }

  /* ---------------------------------------------------------------------
     TCP handler
     --------------------------------------------------------------------- */

  /** The answer of the TCP handler to one received payload: None when the
      payload is empty and nothing is sent, otherwise the sentence sent. */
  function TcpReply(payload: string): (r: Option<string>)
    ensures r == None <==> payload == []
    ensures payload != [] && ParseInt(Strip(payload)) == None ==> r == Some(TcpError)
    ensures ParseInt(Strip(payload)).Some? ==>
      var n := ParseInt(Strip(payload)).value;
      r == Some(Lead + Decimal(n) + if Primality.Prime(n) then PrimeTail else NotPrimeTail)
    ensures ParseInt(payload).Some? ==>
      var n := ParseInt(payload).value;
      r == Some(Lead + Decimal(n) + if Primality.Prime(n) then PrimeTail else NotPrimeTail)
  {
    if payload == [] then
      None
    else
      var reply := Some(Message(Classify(Strip(payload)), TcpError));
      if ParseInt(payload).Some? then ParseAfterStrip(payload); reply else reply
  }

  /** A client reading the TCP sentence back obtains the verdict on the
      stripped payload. */
  lemma TcpReplyReadsBack(payload: string)
    requires payload != []
    ensures TcpReply(payload).Some?
    ensures ReadMessage(TcpReply(payload).value, TcpError) == Some(Classify(Strip(payload)))
  {
    ReadMessageInverts(Classify(Strip(payload)), TcpError);
  }

  /* ---------------------------------------------------------------------
     HTTP route /check_prime
     --------------------------------------------------------------------- */

  /** The "numero" field of the JSON body as Python holds it: missing (the
      route then uses ''), a string, an integer, a boolean, or a value
      int() refuses with TypeError (null, a list, an object). */
  datatype Field = Absent | Text(s: string) | Number(i: int) | Flag(b: bool) | Unconvertible

  /** The route's outcome: a JSON object {"resultado": ...}, or the server
      error that an uncaught exception turns into. */
  datatype HttpAnswer = Json(resultado: string) | ServerError

  /** int(True) is 1 and int(False) is 0, and neither is prime. */
  lemma FlagSentences()
    ensures Message(Judge(1), HttpError) == "El número 1 no es primo"
    ensures Message(Judge(0), HttpError) == "El número 0 no es primo"
  {
    Primality.EarlyExits(1);
    Primality.EarlyExits(0);
    SentenceOne();
    SentenceZero();
  }

  lemma SentenceOne()
    ensures Lead + Decimal(1) + NotPrimeTail == "El número 1 no es primo"
  {
    assert Decimal(1) == "1";
  }

  lemma SentenceZero()
    ensures Lead + Decimal(0) + NotPrimeTail == "El número 0 no es primo"
  {
    assert Decimal(0) == "0";
  }

  /** The answer of /check_prime to a field. */
  function HttpReply(f: Field): (r: HttpAnswer)
    ensures r == ServerError <==> f.Unconvertible?
    ensures f.Absent? ==> r == Json(HttpError)
    ensures f.Text? && ParseInt(f.s) == None ==> r == Json(HttpError)
    ensures f.Text? && ParseInt(f.s).Some? ==>
      var n := ParseInt(f.s).value;
      r == Json(Lead + Decimal(n) + if Primality.Prime(n) then PrimeTail else NotPrimeTail)
    ensures f.Number? ==>
      r == Json(Lead + Decimal(f.i) + if Primality.Prime(f.i) then PrimeTail else NotPrimeTail)
    ensures f.Flag? ==>
      r == Json(if f.b then "El número 1 no es primo" else "El número 0 no es primo")
  {
    match f
    case Absent =>
      assert Trim(IntBlank, "") == "";
      Json(Message(Classify(""), HttpError))
    case Text(s) => Json(Message(Classify(s), HttpError))
    case Number(i) => Json(Message(Judge(i), HttpError))
    case Flag(b) =>
      FlagSentences();
      Json(Message(Judge(if b then 1 else 0), HttpError))
    case Unconvertible => ServerError
  }

  /**
   The two interfaces agree word for word on every text that int() reads
   as an integer. On any other non-empty text that the TCP handler also
   rejects, each interface gives its own error sentence, and the two
   sentences differ. On the empty text the TCP handler stays silent while
   the route answers with its error sentence.
   */
  lemma InterfacesAgree(s: string)
    ensures ParseInt(s).Some? ==> TcpReply(s) == Some(HttpReply(Text(s)).resultado)
    ensures s != [] && ParseInt(Strip(s)) == None ==>
      TcpReply(s) == Some(TcpError) && HttpReply(Text(s)) == Json(HttpError)
    ensures TcpError != HttpError
    ensures TcpReply([]) == None && HttpReply(Text([])) == Json(HttpError)
  {
    ErrorsDiffer();
    EmptyText();
    if ParseInt(s).Some? {
      ParseAfterStrip(s);
      AgreeOnIntegers(s);
    } else if s != [] && ParseInt(Strip(s)) == None {
      RejectedByBoth(s);
    }
  }

  lemma AgreeOnIntegers(s: string)
    requires ParseInt(s).Some?
    ensures TcpReply(s) == Some(HttpReply(Text(s)).resultado)
  {
    ParseAfterStrip(s);
    var v := Classify(s);
    assert Classify(Strip(s)) == v;
    assert !v.NotAnInteger?;
    assert Message(v, TcpError) == Message(v, HttpError);
  }

  lemma RejectedByBoth(s: string)
    requires s != [] && ParseInt(Strip(s)) == None
    ensures TcpReply(s) == Some(TcpError) && HttpReply(Text(s)) == Json(HttpError)
  {
    if ParseInt(s).Some? {
      ParseAfterStrip(s);
    }
  }

  lemma ErrorsDiffer()
    ensures TcpError != HttpError
  {
    assert TcpError[7] != HttpError[7];
  }

  lemma EmptyText()
    ensures TcpReply([]) == None && HttpReply(Text([])) == Json(HttpError)
  {
    assert Trim(IntBlank, "") == "";
  }

  /** Where the interfaces part: the TCP handler's strip() removes a leading
      U+001C that int() alone refuses, so "\U{1C}7" is a prime over TCP and
      an error over HTTP. */
  lemma InterfacesDiverge()
    ensures TcpReply("\U{1C}7") == Some("El número 7 es primo")
    ensures HttpReply(Text("\U{1C}7")) == Json(HttpError)
  {
    SeparatorExample();
    Primality.SmallValues();
    SentenceSeven();
  }

  lemma SamplePrime()
    ensures TcpReply("7") == Some("El número 7 es primo")
  {
    ReadDigits("7", false);
    TrimUnpadded(StripBlank, "7");
    Primality.SmallValues();
    SentenceSeven();
  }

  lemma SentenceEight()
    ensures Lead + Decimal(8) + NotPrimeTail == "El número 8 no es primo"
  {
    assert Decimal(8) == "8";
  }

  lemma SampleNotPrime()
    ensures TcpReply("8") == Some("El número 8 no es primo")
  {
    ReadDigits("8", false);
    TrimUnpadded(StripBlank, "8");
    Primality.SmallValues();
    SentenceEight();
  }

  lemma SampleNotInteger()
    ensures TcpReply("xyz") == Some(TcpError)
  {
    assert Strip("xyz") == "xyz" by {
      TrimUnpadded(StripBlank, "xyz");
    }
    assert ParseInt("xyz") == None by {
      TrimUnpadded(IntBlank, "xyz");
      assert !IsDigit("xyz"[0]);
    }
  }

  lemma SentenceSeven()
    ensures Lead + Decimal(7) + PrimeTail == "El número 7 es primo"
  {
    assert Decimal(7) == "7";
  }

  lemma SentenceSeventeen()
    ensures Lead + "17" + PrimeTail == "El número 17 es primo"
  {
  }

  lemma PaddedSample()
    ensures " " + "+007" + "\n" == " +007\n"
  {
  }

  lemma SamplePadded()
    ensures TcpReply(" +007\n") == Some("El número 7 es primo")
  {
    PaddedSample();
    ParsePadded(" ", "+007", "\n");
    PlusLeadingZerosExample();
    ParseAfterStrip(" +007\n");
    Primality.SmallValues();
    SentenceSeven();
  }

  lemma SeventeenText()
    ensures ParseInt("17") == Some(17)
    ensures Decimal(17) == "17"
  {
    assert DigitsValue("17") == 17 by {
      assert "17"[..1] == "1";
    }
    ReadDigits("17", false);
    DecimalUnique("17", 17);
  }

  lemma SampleHttpPrime()
    ensures HttpReply(Text("17")) == Json("El número 17 es primo")
  {
    SeventeenText();
    Primality.SmallValues();
    SentenceSeventeen();
  }

  lemma SampleHttpNotInteger()
    ensures HttpReply(Text("3.5")) == Json(HttpError)
  {
    assert ParseInt("3.5") == None by {
      TrimUnpadded(IntBlank, "3.5");
      assert !IsDigit("3.5"[1]);
    }
  }

  /** Sample exchanges: a prime, a composite, non-integer text, an empty
      payload, and a padded signed text whose reply shows the value read. */
  lemma SampleExchanges()
    ensures TcpReply("7") == Some("El número 7 es primo")
    ensures TcpReply("8") == Some("El número 8 no es primo")
    ensures TcpReply("xyz") == Some(TcpError)
    ensures TcpReply("") == None
    ensures TcpReply(" +007\n") == Some("El número 7 es primo")
    ensures HttpReply(Text("17")) == Json("El número 17 es primo")
    ensures HttpReply(Text("3.5")) == Json(HttpError)
    ensures TcpReply("\U{1C}7") == Some("El número 7 es primo")
    ensures HttpReply(Text("\U{1C}7")) == Json(HttpError)
  {
    InterfacesDiverge();
    SamplePrime();
    SampleNotPrime();
    SampleNotInteger();
    SamplePadded();
    SampleHttpPrime();
    SampleHttpNotInteger();
  }
}
