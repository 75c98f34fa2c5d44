/**
 * The custom error message codec of the zod adapter: a validation error
 * message `__custom::<status>::<code>::<message>` that carries an HTTP
 * status and an application error code through zod.
 */
module CustomErrorMessage {
  import opened Wrappers
  import opened Decimal

  const Start: string := "__custom"
  const Delimiter: string := "::"

  /** What `errorMap()` returns: an object with the same message. */
  datatype ErrorMapResult = ErrorMapResult(message: string)

  /** The object built by `createCustomErrorResponseMessage`. */
  datatype CustomError = CustomError(message: string) {
    function ErrorMap(): (r: ErrorMapResult)
      ensures r.message == message
    {
      ErrorMapResult(message)
    }
  }

  predicate StartsWith(s: string, prefix: string) {
    |prefix| <= |s| && s[..|prefix|] == prefix
  }

  predicate HasNoColon(s: string) {
    forall k :: 0 <= k < |s| ==> s[k] != ':'
  }

  function CreateCustomErrorResponseMessage(httpStatus: int, errorCode: int, message: string): (r: CustomError)
    ensures StartsWith(r.message, Start + Delimiter)
    ensures r.ErrorMap().message == r.message
  {
    var text := Start + Delimiter + IntToDecimal(httpStatus) + Delimiter + IntToDecimal(errorCode) + Delimiter + message;
    PrefixOfConcat(Start + Delimiter, text[|Start + Delimiter|..]);
    assert text == (Start + Delimiter) + text[|Start + Delimiter|..];
    CustomError(text)
  }

  /** A string starts with whatever it was built from. */
  lemma PrefixOfConcat(p: string, t: string)
    ensures StartsWith(p + t, p)
  {
    assert (p + t)[..|p|] == p;
  }

  /**
   * `(msg || '').startsWith(START)`: a missing message (`undefined` or
   * `null`) reads as the empty string.
   */
  function IsCustomErrorResponseMessage(msg: Option<string>): (b: bool)
    ensures b <==> msg.Some? && |msg.value| >= 8 && msg.value[..8] == "__custom"
    ensures msg == None || msg == Some("") ==> !b
  {
    var text := if msg.None? then "" else msg.value;
    StartsWith(text, Start)
  }

  /** A `::` starts at index k of s. */
  predicate DelimiterAt(s: string, k: nat) {
    k + 2 <= |s| && s[k] == ':' && s[k + 1] == ':'
  }

  /** Index of the first `::` at or after index i of s, if any. */
  function FirstDelimiterFrom(s: string, i: nat): (r: Option<nat>)
    ensures r.Some? ==> i <= r.value && DelimiterAt(s, r.value)
    ensures r.Some? ==> forall k: nat :: i <= k < r.value ==> !DelimiterAt(s, k)
    ensures r.None? ==> forall k: nat :: i <= k ==> !DelimiterAt(s, k)
    decreases |s| - i
  {
    if |s| < i + 2 then None
    else if DelimiterAt(s, i) then Some(i)
    else FirstDelimiterFrom(s, i + 1)
  }

  /** Index of the first `::` in s, if any. */
  function FirstDelimiter(s: string): (r: Option<nat>)
    ensures r.Some? ==> DelimiterAt(s, r.value)
    ensures r.Some? ==> forall k: nat :: k < r.value ==> !DelimiterAt(s, k)
    ensures r.None? ==> forall k: nat :: !DelimiterAt(s, k)
  {
    FirstDelimiterFrom(s, 0)
  }

  /** `s.split('::')`: the pieces between non-overlapping `::`, scanned left to right. */
  function Split(s: string): (parts: seq<string>)
    ensures |parts| >= 1
    decreases |s|
  {
    match FirstDelimiter(s)
    case None => [s]
    case Some(i) => [s[..i]] + Split(s[i + 2..])
  }

  /** Array destructuring: a missing element is `undefined`. */
  function Part(parts: seq<string>, k: nat): Option<string> {
    if k < |parts| then Some(parts[k]) else None
  }

  /** `Number(x)` where `x` may be `undefined`. */
  function NumberOf(x: Option<string>): JsNumber {
    if x.None? then NaN else ToNumber(x.value)
  }

  datatype Extracted = Extracted(httpStatus: JsNumber, errorCode: JsNumber, message: Option<string>)

  /** Throws (Failure) on a message that is not custom; otherwise reads fields 1 to 3 of the split. */
  function ExtractCustomErrorResponseMessage(msg: Option<string>): (r: Result<Extracted, string>)
    ensures r.Failure? <==> !IsCustomErrorResponseMessage(msg)
    ensures r.Failure? ==> r.error == "Invalid custom error response message"
  {
    if !IsCustomErrorResponseMessage(msg) then Failure("Invalid custom error response message")
    else
      var parts := Split(msg.value);
      Success(Extracted(NumberOf(Part(parts, 1)), NumberOf(Part(parts, 2)), Part(parts, 3)))
  }

  lemma FirstDelimiterAfterColonFree(p: string, rest: string)
    requires HasNoColon(p)
    ensures FirstDelimiter(p + Delimiter + rest) == Some(|p|)
  {
    var s := p + Delimiter + rest;
    assert DelimiterAt(s, |p|);
  }

  lemma NoColonNoDelimiter(s: string)
    requires HasNoColon(s)
    ensures FirstDelimiter(s).None?
  {
  }

  /** Splitting a colon-free field followed by `::` peels off exactly that field. */
  lemma SplitColonFreeField(p: string, rest: string)
    requires HasNoColon(p)
    ensures Split(p + Delimiter + rest) == [p] + Split(rest)
  {
    var s := p + Delimiter + rest;
    FirstDelimiterAfterColonFree(p, rest);
    assert s[..|p|] == p;
    assert s[|p| + 2..] == rest;
  }

  lemma DecimalHasNoColon(n: int)
    ensures HasNoColon(IntToDecimal(n))
  {
  }

  lemma SplitThreeFields(a: string, b: string, c: string, rest: string)
    requires HasNoColon(a) && HasNoColon(b) && HasNoColon(c)
    ensures Split(a + Delimiter + b + Delimiter + c + Delimiter + rest) == [a, b, c] + Split(rest)
  {
    var t3 := c + Delimiter + rest;
    var t2 := b + Delimiter + t3;
    assert a + Delimiter + b + Delimiter + c + Delimiter + rest == a + Delimiter + t2;
    SplitColonFreeField(a, t2);
    SplitColonFreeField(b, t3);
    SplitColonFreeField(c, rest);
  }

  lemma SplitCreated(httpStatus: int, errorCode: int, message: string)
    ensures Split(CreateCustomErrorResponseMessage(httpStatus, errorCode, message).message)
         == [Start, IntToDecimal(httpStatus), IntToDecimal(errorCode)] + Split(message)
  {
    DecimalHasNoColon(httpStatus);
    DecimalHasNoColon(errorCode);
    assert HasNoColon(Start);
    SplitThreeFields(Start, IntToDecimal(httpStatus), IntToDecimal(errorCode), message);
  }

  /** Every created message is recognised as custom. */
  lemma CreatedIsCustom(httpStatus: int, errorCode: int, message: string)
    ensures IsCustomErrorResponseMessage(Some(CreateCustomErrorResponseMessage(httpStatus, errorCode, message).message))
  {
    var m := CreateCustomErrorResponseMessage(httpStatus, errorCode, message).message;
    assert m[..8] == (Start + Delimiter)[..8];
  }

  /**
   * Extracting a created message gives back the status and the code; the
   * message comes back as its text before the first `::`, which is the
   * whole message when it has no `::`.
   */
  lemma {:induction false} ExtractCreated(httpStatus: int, errorCode: int, message: string)
    ensures ExtractCustomErrorResponseMessage(Some(CreateCustomErrorResponseMessage(httpStatus, errorCode, message).message))
         == Success(Extracted(Int(httpStatus), Int(errorCode), Some(Split(message)[0])))
    ensures Split(message)[0] == match FirstDelimiter(message) case None => message case Some(i) => message[..i]
  {
    CreatedIsCustom(httpStatus, errorCode, message);
    SplitCreated(httpStatus, errorCode, message);
    DecimalRoundTrip(httpStatus);
    DecimalRoundTrip(errorCode);
  }

  /** The round trip, for a message without `::`. */
  lemma RoundTrip(httpStatus: int, errorCode: int, message: string)
    requires FirstDelimiter(message).None?
    ensures ExtractCustomErrorResponseMessage(Some(CreateCustomErrorResponseMessage(httpStatus, errorCode, message).message))
         == Success(Extracted(Int(httpStatus), Int(errorCode), Some(message)))
  {
    ExtractCreated(httpStatus, errorCode, message);
  }

  /** The error code used by the header validator in the rule's test suite. */
  lemma RoundTripNegativeCode()
    ensures ExtractCustomErrorResponseMessage(Some(CreateCustomErrorResponseMessage(401, -1, "Api key is invalid").message))
         == Success(Extracted(Int(401), Int(-1), Some("Api key is invalid")))
  {
    var text := "Api key is invalid";
    assert HasNoColon(text);
    NoColonNoDelimiter(text);
    RoundTrip(401, -1, text);
  }
}
