# Prime-check service: a Dafny model

The service answers one question, "is this number prime?", over two
interfaces. A TCP handler on port 8810 receives one payload per
connection. It strips the payload, reads it with Python's `int()`, and
sends back one Spanish sentence. The HTTP route `POST /check_prime` does
the same with the `numero` field of a JSON body and returns the sentence
as `{"resultado": ...}`. Both call `isprime`. That function divides by
2 and by 3, then by the pairs `i` and `i + 2` for `i = 5, 11, 17, ...`
while `i * i <= n` (the 6k ± 1 wheel).

The model has four modules:

- `Wrappers` (`wrappers.dfy`): the `Option` type.
- `Primality` (`primality.dfy`): the textbook predicate `Prime`, the
  test as a pure function `IsPrime`, and the test as the loop the
  service runs, `IsPrimeLoop`. Both forms are proved equal to `Prime`
  for every integer.
- `Numerals` (`numerals.dfy`): the integer text. `Strip` is
  `str.strip()` over the full `str.isspace()` set. `ParseInt` is `int()`
  on a string: surrounding whitespace, an optional `+` or `-`, then one
  or more ASCII digits. The two whitespace sets are not the same.
  `int()` refuses the separators U+001C to U+001F, which `str.isspace()`
  accepts and `strip()` removes. `Blank` names the two kinds, and
  `Trim` removes either kind from both ends. `Decimal` is `str()` of an
  int. Its texts are canonical (no `+`, no leading zero, no `-0`), and
  `int()` reads them back. `CanonicalReads` proves the converse: every
  canonical text is read by `int()` and is `str()` of what it reads. So
  `Decimal` maps the integers one to one onto the canonical texts.
- `Replies` (`replies.dfy`): the three outcomes (`Prime`, `NotPrime`,
  `NotAnInteger`) and the sentences written for them. `ReadMessage`
  reads a sentence back into its outcome, and is proved to invert the
  writing in both directions. `TcpReply` is the TCP handler's answer.
  `HttpReply` is the route's answer.

The sentences are the code's exact Spanish strings (app.py:63-68,
104-109): `"El número {n} es primo"`, `"El número {n} no es primo"`,
`"Error: Entrada no es un número entero."` for TCP and
`"Error: Por favor introduce un número entero válido."` for HTTP. A
sentence shows the value `int()` read, not the text that was sent, so
`" +007\n"` is answered with `"El número 7 es primo"`. The TCP handler
calls `strip()` before `int()` (app.py:58); the route calls `int()`
alone (app.py:99). Every text `int()` accepts reads the same either
way. But `"\x1c7"` is a prime over TCP and an error over HTTP, because
`int()` alone refuses the leading U+001C. `InterfacesDiverge` states
this case.

Three things are parameters or abstractions, not I/O. The TCP payload
is the already-decoded text of one `recv`. The HTTP field is a `Field`
value: missing (the route then uses `''`), a string, an integer, a
boolean, or a value `int()` rejects with `TypeError`. A route outcome
is `Json(resultado)`, or `ServerError` for an uncaught exception.

## Model

| member | source | states |
|---|---|---|
| Primality.IsPrime | app.py:13-28 | The test returns true exactly when n > 1 and no d with 2 <= d < n divides n. This holds for every integer. |
| Primality.IsPrimeLoop | app.py:13-28 | The while-loop version keeps two invariants: i ≡ 5 (mod 6), and no d in [2, i) divides n. It terminates on the measure n - i. It returns true exactly when n is prime, and it agrees with `IsPrime`. |
| Primality.WheelScan | app.py:23-28 | The loop from candidate i (i ≡ 5 mod 6, n coprime to 6, no divisor below i) returns true exactly when n is prime. |
| Primality.WheelStart | app.py:21-23 | Once 2 and 3 do not divide n, nothing below 5 divides n, so the invariant holds at i = 5. |
| Primality.WheelStep | app.py:24-27 | If neither i nor i + 2 divides n, then nothing below i + 6 divides n. i + 1, i + 3, i + 4 and i + 5 are multiples of 2 or 3. |
| Primality.WheelHit | app.py:25-26 | A candidate i or i + 2 that divides n lies strictly between 1 and n, so n is not prime. |
| Primality.WheelBounds | app.py:24-25 | While i * i <= n, both candidates i and i + 2 are smaller than n. |
| Primality.NoDivisorBeyondRoot | app.py:24-28 | When the loop exits with i * i > n and no divisor below i, n is prime. |
| Primality.SmallDivisor | app.py:24 | A composite n has a divisor e with e * e <= n. This is why the search stops at the square root. |
| Primality.EarlyExits | app.py:17-22 | Nothing below 2 is prime, 2 and 3 are prime, and any n > 3 that 2 or 3 divides is not. |
| Primality.SmallValues | app.py:13-28 | 2, 3, 5, 7, 11, 13 and 17 are reported prime. 4, 6, 8, 9, 10 and 12 are not. |
| Numerals.Strip | app.py:58 | `str.strip()`: the result is no longer than the input and has no `str.isspace()` character at either end. It removes the full `str.isspace()` set, U+001C to U+001F included. `TrimSplit` and `TrimPadded` pin it down exactly. |
| Numerals.ParseInt | app.py:58 | `int()` on a string: whitespace that `int()` skips (`str.isspace()` without U+001C to U+001F), an optional `+` or `-`, then one or more ASCII digits, then whitespace again. An accepted text ends, after that whitespace, in a digit, and a negative result has a leading `-`. `ParseIntShape` and `ShapeParses` state this grammar in both directions. The route calls the same `int()` at app.py:99. |
| Numerals.TrimStart | app.py:58 | For either kind of whitespace, the result is a suffix of the input. Everything removed is whitespace of that kind. The result does not start with it. |
| Numerals.TrimEnd | app.py:58 | For either kind of whitespace, the result is a prefix of the input. Everything removed is whitespace of that kind. The result does not end with it. |
| Numerals.TrimSplit | app.py:58 | Every text is its trimmed text between two runs of whitespace. |
| Numerals.TrimPadded | app.py:58 | Trimming w1 + t + w2 gives t when w1 and w2 are whitespace and t has none at its ends. |
| Numerals.TrimAround | app.py:58 | Whitespace added around a text is removed along with the text's own, so the trimmed result is unchanged. |
| Numerals.TrimIdempotent | app.py:58 | Trimming twice is the same as trimming once. |
| Numerals.IntBlankIsStripBlank | app.py:58 | Whitespace that `int()` skips is whitespace that `strip()` removes. |
| Numerals.ParsePadded | app.py:58 | Whitespace that `int()` skips never changes what `int()` reads. |
| Numerals.LiteralUnpadded | app.py:58 | An integer literal starts with a sign or a digit and ends with a digit, so neither kind of whitespace is at its ends. |
| Numerals.ParseAfterStrip | app.py:58 | When `int()` accepts a text, it accepts the stripped text too, with the same value. So `strip()` before `int()` never loses a number. |
| Numerals.SeparatorExample | app.py:58 | The converse fails. `int("\x1c7")` raises, while `strip()` turns that text into `"7"`, which reads as 7. |
| Numerals.DigitsValueIsPlaceValue | app.py:58 | Reading digits left to right gives the place-value sum of the digits. |
| Numerals.LeadingZero | app.py:58 | A leading zero does not change the value of a digit string. |
| Numerals.PlusDigits | app.py:58 | `int()` reads `+` followed by any digit string as the value of the digits. |
| Numerals.ParseIntShape | app.py:58 | Every text `int()` accepts is skipped whitespace, then a literal (digits, or a sign and digits) whose value is the value read, then skipped whitespace. |
| Numerals.ShapeParses | app.py:58 | Conversely, `int()` accepts every such text and reads the literal's value. |
| Numerals.ReadDigits | app.py:58 | `int()` reads a digit string, or `-` followed by one, as its value. |
| Numerals.Digits | app.py:63-65 | The decimal digits of n are canonical and read back as n. |
| Numerals.Decimal | app.py:63-65 | `str(n)` is canonical, and `int()` reads it back as n. |
| Numerals.DecimalUnique | app.py:58-65 | A canonical text that reads as n is exactly `str(n)`. A reply shows the value that was read, not the text that was sent. |
| Numerals.CanonicalReads | app.py:58-65 | Every canonical text is read by `int()` and is `str()` of the value read. With `Decimal`, the integers and the canonical texts correspond one to one. |
| Numerals.CanonicalEndsInDigit | app.py:63-65 | A canonical integer text ends in a digit. |
| Numerals.PlusLeadingZerosExample | app.py:58-63 | `"+007"` reads as 7, and 7 is shown as `"7"`. |
| Replies.Classify | app.py:58-65 | The verdict on a text is `NotAnInteger` exactly when `int()` refuses it. A `Prime(n)` or `NotPrime(n)` verdict carries the value `int()` read, and n is prime or not prime accordingly. The route does the same at app.py:99-106. |
| Replies.Message | app.py:63-68 | The error verdict gets the interface's own error sentence. A number verdict gets "El número ", then `str(n)`, then " es primo" or " no es primo", in a form that `ReadMessage` can parse. `ReadMessageInverts` and `ReadMessageSound` show it is inverted exactly. The route writes the same sentences at app.py:104-109. |
| Replies.Judge | app.py:62-65 | The verdict on an integer is `Prime(n)` exactly when n is mathematically prime. Otherwise it is `NotPrime(n)`. |
| Replies.TcpReply | app.py:51-72 | An empty payload gets no reply. Every other payload gets exactly one sentence. If the stripped payload reads as n, the sentence is "El número " + str(n) + " es primo" when n is prime and " no es primo" when it is not. Otherwise it is the TCP error sentence. A payload that `int()` reads as n without stripping gets the sentence for that same n. |
| Replies.TcpReplyReadsBack | app.py:58-72 | A client that reads back the sentence for a non-empty payload gets the verdict on the stripped payload. |
| Replies.HttpReply | app.py:95-113 | A missing field and text that is not an integer get the HTTP error sentence. Text that reads as n, and an integer n, get the sentence for n. true and false get the sentences for 1 and 0. null, lists and objects raise and get no JSON answer. |
| Replies.FlagSentences | app.py:99-106 | `int(True)` is 1 and `int(False)` is 0, and neither is reported prime. |
| Replies.MessageFrames | app.py:63-65 | A sentence about n is "El número ", then `str(n)`, then its tail. |
| Replies.DigitBeforeTail | app.py:63-65 | A prime sentence never ends in the not-prime tail. |
| Replies.PrimeSentenceIsNotNotPrime | app.py:63-65 | The sentence for a prime never has the shape of a not-prime sentence. |
| Replies.NotErrorSentence | app.py:63-68 | A sentence about a number is never an error sentence. |
| Replies.ReadMessageInverts | app.py:63-68 | Reading a sentence back gives the verdict it was written from. This holds on both interfaces. |
| Replies.ReadMessageSound | app.py:63-68 | Every sentence that reads back as a verdict is exactly the sentence written for that verdict. |
| Replies.MessageInjective | app.py:63-68 | Different verdicts never produce the same sentence. |
| Replies.InterfacesAgree | app.py:58-109 | The two interfaces answer word for word the same for every text that `int()` reads as an integer. A non-empty text that TCP also rejects gets each interface's own error sentence, and the two differ. On empty text, TCP is silent and HTTP answers with its error. |
| Replies.InterfacesDiverge | app.py:58-109 | "\x1c7" is answered over TCP as the prime 7 and over HTTP with the error sentence. |
| Replies.SampleExchanges | app.py:51-109 | Concrete exchanges: "7", "8", "xyz", "", " +007\n" and "\x1c7" over TCP, and "17", "3.5" and "\x1c7" over HTTP. |

## Left out

- Sockets: bind, listen with a backlog of 5, the accept loop, `recv`,
  `send`, `close`, and the per-connection `try`/`finally`
  (app.py:37-46, 72-85). These are I/O. The model is the value sent for
  one received payload. That a connection is always closed is a fact
  about sockets, not about values.
- The 1024-byte receive cap (app.py:51). It is a property of one `recv`
  call. The model takes the payload as given.
- Byte decoding and the `UnicodeDecodeError` path (app.py:58, 67-69,
  75-76). The payload is modelled as already-decoded text, and an empty
  payload stands for an empty read. A payload that is not valid UTF-8
  gets no reply at all. `UnicodeDecodeError` is a `ValueError`, so
  app.py:67 catches it. The logging call at app.py:69 then decodes the
  payload again and raises. app.py:75 swallows that exception, so the
  error sentence at app.py:72 is never sent.
- Parts of `int()` that the grammar here does not cover: underscores
  between digits, non-ASCII decimal digits, the truncation of a JSON
  float (app.py:99), and the limit on digit count that newer Python
  versions apply to integer/string conversion. The last one depends on
  the interpreter version. It cannot bind on TCP payloads, which are at
  most 1024 bytes.
- `check_prime_tcp` (app.py:116-142). It is a network client that
  relays whatever the TCP handler answers. Its only logic maps socket
  exceptions to messages.
- Flask routing, `request.get_json`, `jsonify`, `render_template`, the
  daemon thread and process startup (app.py:88-90, 95, 113, 144-151).
  This is framework and runtime glue. The model's `Field` starts from a
  JSON object. A body that is not JSON is left to Flask. A JSON body that
  is not an object (`[7]`, `7`, `"7"`) is left out too: `data.get` at
  app.py:96 raises `AttributeError` on it, and the route fails with a
  server error.
- Logging calls throughout. They have no effect on the reply to a
  payload that decodes. A payload that does not decode gets no reply,
  because of the logging call at app.py:69 (see the decoding line
  above).
- The `return None` branch of `isprime` (app.py:29-30). Both callers pass
  an `int` they have already parsed, so that branch cannot be reached.
  The model takes an `int`.
- The running time of the test on very large inputs. The model proves
  that the loop terminates, not how long it takes.
