/**
 * `extract_stub_values_ai`: ask a language model for the three pay-stub
 * figures as JSON, strip Markdown code fences from its reply, decode it and
 * read the three keys.  The completion service and the JSON decoder are
 * parameters; every way the attempt can fail ends in the all-zero stub.
 */
module AiFallback {
  import opened Wrappers
  import opened Text
  import opened Deduction
  import StubRegex

  /** The instruction placed before the pay-stub text in the prompt. */
  const PromptPrefix := "Extract pay stub values. Return ONLY valid JSON. Schema: {'reg_rate': number, 'ot_rate': number, 'ot_hours': number} Text: "

  /** The prompt sent to the model: the instruction followed by the text verbatim. */
  function Prompt(text: string): (p: string)
    ensures |p| == |PromptPrefix| + |text|
    ensures p[..|PromptPrefix|] == PromptPrefix && p[|PromptPrefix|..] == text
  {
    PromptPrefix + text
  }

  /** A decoded JSON document, as `json.loads` returns it. */
  datatype Json =
    | JNull
    | JBool(b: bool)
    | JNumber(n: real)
    | JString(s: string)
    | JArray(items: seq<Json>)
    | JObject(fields: map<string, Json>)

  /**
   * The completion service: the reply text for a prompt, or None when the
   * call raises.  A reply whose text is missing is the empty string.
   */
  type Completion = string -> Option<string>

  /** `json.loads`: the decoded document, or None when the text is not valid JSON. */
  type Decoder = string -> Option<Json>

  const JsonFence := "```json"
  const Fence := "```"

  /** `raw.strip().replace("```json", "").replace("```", "").strip()`: the cleaned text starts and ends with no whitespace. */
  function CleanReply(raw: string): (clean: string)
    ensures clean == [] || (!IsSpace(clean[0]) && !IsSpace(clean[|clean| - 1]))
  {
    var unfenced := ReplaceAll(ReplaceAll(Strip(raw), JsonFence, ""), Fence, "");
    StripEnds(unfenced);
    Strip(unfenced)
  }

  /** Python's `float(x)` on a decoded JSON value; None where it raises. */
  function ToFloat(v: Json): (r: Option<real>)
    ensures v.JNumber? ==> r == Some(v.n)
    ensures v.JBool? ==> r == Some(if v.b then 1.0 else 0.0)
    ensures v.JString? ==> r == DecimalText(v.s)
    ensures v.JNull? || v.JArray? || v.JObject? ==> r.None?
  {
    match v
    case JNumber(n) => Some(n)
    case JBool(b) => Some(if b then 1.0 else 0.0)
    case JString(s) => DecimalText(s)
    case _ => None
  }

  /**
   * `float(s)` on a string: surrounding whitespace, then an optional sign and
   * a plain decimal numeral.
   */
  function DecimalText(s: string): (r: Option<real>)
    ensures Strip(s) == [] ==> r.None?
  {
    SignedDecimal(Strip(s))
  }

  /** An optional sign and a plain decimal numeral, with no whitespace around them. */
  function SignedDecimal(t: string): (r: Option<real>)
    ensures t == [] ==> r.None?
  {
    if t == [] then None
    else if t[0] == '-' then
      match StubRegex.ParseDecimal(t[1..])
      case Some(x) => Some(-x)
      case None => None
    else if t[0] == '+' then StubRegex.ParseDecimal(t[1..])
    else StubRegex.ParseDecimal(t)
  }

  /**
   * `float()` of a signed numeral with whitespace around it: the numeral's
   * value, negated after a minus sign.
   */
  lemma DecimalTextValue(before: string, sign: string, t: string, after: string)
    requires forall k :: 0 <= k < |before| ==> IsSpace(before[k])
    requires forall k :: 0 <= k < |after| ==> IsSpace(after[k])
    requires sign == "" || sign == "-" || sign == "+"
    requires StubRegex.ParseDecimal(t).Some?
    ensures DecimalText(before + sign + t + after) ==
      Some(if sign == "-" then -StubRegex.ParseDecimal(t).value else StubRegex.ParseDecimal(t).value)
  {
    StubRegex.ParseDecimalChars(t);
    Regroup(before, sign, t, after);
    SignedNumeralStripped(before, sign, t, after);
    SignedNumeralRead(before + (sign + t) + after, sign, t);
  }

  /** Whitespace around a signed numeral is stripped away. */
  lemma SignedNumeralStripped(before: string, sign: string, t: string, after: string)
    requires forall k :: 0 <= k < |before| ==> IsSpace(before[k])
    requires forall k :: 0 <= k < |after| ==> IsSpace(after[k])
    requires sign == "" || sign == "-" || sign == "+"
    requires t != [] && StubRegex.InClass(t[0], StubRegex.NumberChar) && StubRegex.InClass(t[|t| - 1], StubRegex.NumberChar)
    ensures Strip(before + (sign + t) + after) == sign + t
  {
    var inner := sign + t;
    SignedNumeralEnds(sign, t, inner);
    StripSurrounded(before, inner, after);
  }

  lemma Regroup(a: string, b: string, c: string, d: string)
    ensures a + b + c + d == a + (b + c) + d
  {
  }

  /** A signed numeral starts and ends with no whitespace. */
  lemma SignedNumeralEnds(sign: string, t: string, inner: string)
    requires sign == "" || sign == "-" || sign == "+"
    requires t != [] && StubRegex.InClass(t[0], StubRegex.NumberChar) && StubRegex.InClass(t[|t| - 1], StubRegex.NumberChar)
    requires inner == sign + t
    ensures inner != [] && !IsSpace(inner[0]) && !IsSpace(inner[|inner| - 1])
  {
    assert inner[|inner| - 1] == t[|t| - 1];
    if sign == "" {
      assert inner[0] == t[0];
    } else {
      assert inner[0] == sign[0];
    }
  }

  /** The sign of a stripped numeral is read off first. */
  lemma SignedNumeralRead(x: string, sign: string, t: string)
    requires Strip(x) == sign + t
    requires sign == "" || sign == "-" || sign == "+"
    requires t != [] && StubRegex.InClass(t[0], StubRegex.NumberChar) && StubRegex.ParseDecimal(t).Some?
    ensures DecimalText(x) ==
      Some(if sign == "-" then -StubRegex.ParseDecimal(t).value else StubRegex.ParseDecimal(t).value)
  {
    SignedDecimalOf(sign, t, sign + t);
  }

  lemma SignedDecimalOf(sign: string, t: string, u: string)
    requires u == sign + t
    requires sign == "" || sign == "-" || sign == "+"
    requires t != [] && StubRegex.InClass(t[0], StubRegex.NumberChar) && StubRegex.ParseDecimal(t).Some?
    ensures SignedDecimal(u) ==
      Some(if sign == "-" then -StubRegex.ParseDecimal(t).value else StubRegex.ParseDecimal(t).value)
  {
    if sign == "" {
      assert u == t;
    } else {
      assert u[0] == sign[0] && u[1..] == t;
    }
  }

  /** The stripped text `x` is the sign `sign` followed by a numeral `t` that `float()` accepts. */
  predicate SignedNumeral(x: string, sign: string, t: string) {
    && (sign == "" || sign == "-" || sign == "+")
    && x == sign + t
    && StubRegex.ParseDecimal(t).Some?
  }

  /** A signed numeral is read exactly when it is a sign and a numeral, and then as that numeral's value, negated after a minus sign. */
  lemma SignedDecimalIff(x: string)
    ensures SignedDecimal(x).Some? <==> exists sign: string, t: string :: SignedNumeral(x, sign, t)
    ensures forall sign: string, t: string :: SignedNumeral(x, sign, t) ==>
      SignedDecimal(x) == Some(if sign == "-" then -StubRegex.ParseDecimal(t).value else StubRegex.ParseDecimal(t).value)
  {
    if SignedDecimal(x).Some? {
      if x[0] == '-' || x[0] == '+' {
        var sign := x[..1];
        assert sign == [x[0]] && x == sign + x[1..];
        assert SignedNumeral(x, sign, x[1..]);
      } else {
        assert x == "" + x;
        assert SignedNumeral(x, "", x);
      }
    }
    forall sign: string, t: string | SignedNumeral(x, sign, t)
      ensures SignedDecimal(x) == Some(if sign == "-" then -StubRegex.ParseDecimal(t).value else StubRegex.ParseDecimal(t).value)
    {
      StubRegex.ParseDecimalChars(t);
      SignedDecimalOf(sign, t, x);
    }
  }

  /**
   * `float(s)` on a string succeeds exactly when the stripped text is an
   * optional sign followed by a numeral, and then gives that numeral's
   * value, negated after a minus sign.
   */
  lemma DecimalTextIff(s: string)
    ensures DecimalText(s).Some? <==> exists sign: string, t: string :: SignedNumeral(Strip(s), sign, t)
    ensures forall sign: string, t: string :: SignedNumeral(Strip(s), sign, t) ==>
      DecimalText(s) == Some(if sign == "-" then -StubRegex.ParseDecimal(t).value else StubRegex.ParseDecimal(t).value)
  {
    SignedDecimalIff(Strip(s));
  }

  /**
   * What `float()` accepts is made of digits and dots after an optional
   * sign, so any other character ("$20.00", "abc") makes it raise.
   */
  lemma DecimalTextChars(s: string)
    requires DecimalText(s).Some?
    ensures var x := Strip(s);
      && x != []
      && (x[0] == '-' || x[0] == '+' || StubRegex.InClass(x[0], StubRegex.NumberChar))
      && forall k :: 0 < k < |x| ==> StubRegex.InClass(x[k], StubRegex.NumberChar)
  {
    DecimalTextIff(s);
    var x := Strip(s);
    var sign: string, t: string :| SignedNumeral(x, sign, t);
    StubRegex.ParseDecimalChars(t);
    if sign == "" {
      assert x == t;
    } else {
      forall k | 0 < k < |x| ensures StubRegex.InClass(x[k], StubRegex.NumberChar) {
        assert x[k] == t[k - 1];
      }
    }
  }

  /** `float("20")` is 20.0. */
  lemma FloatOfTwenty()
    ensures DecimalText("20") == Some(20.0)
  {
    StripUnchanged("20");
    StubRegex.ParseDecimalWhole("20");
    assert "20"[..1] == "2" && "2"[..0] == "";
  }

  /** `float("$20.00")` raises: the dollar sign is not part of a numeral. */
  lemma FloatOfDollarRaises()
    ensures DecimalText("$20.00").None?
  {
    var t := "$20.00";
    StripUnchanged(t);
    assert t[0] == '$' && StubRegex.ScanWhile(t, 0, StubRegex.Digit) == 0;
  }

  /** `float("abc")` raises. */
  lemma FloatOfWordRaises()
    ensures DecimalText("abc").None?
  {
    var t := "abc";
    StripUnchanged(t);
    assert t[0] == 'a' && StubRegex.ScanWhile(t, 0, StubRegex.Digit) == 0;
  }

  /** `float("1.2.3")` raises: a numeral has one dot at most. */
  lemma FloatOfTwoDotsRaises()
    ensures DecimalText("1.2.3").None?
  {
    var t := "1.2.3";
    StripUnchanged(t);
    StubRegex.ScanRun(t, 0, 1, StubRegex.Digit);
    assert t[1..][1..][1] == '.';
  }

  /** `float("-")` raises: a sign alone is not a number. */
  lemma FloatOfBareSignRaises()
    ensures DecimalText("-").None?
  {
    StripUnchanged("-");
    assert "-"[1..] == "";
  }

  /** A reply whose regular rate is the string "$20.00" gives the all-zero stub, not a partial one. */
  lemma DollarStringRateGivesNoValues(text: string, complete: Completion, decode: Decoder)
    requires complete(Prompt(text)).Some?
    requires decode(CleanReply(complete(Prompt(text)).value)) ==
      Some(JObject(map["reg_rate" := JString("$20.00"), "ot_rate" := JNumber(30.0), "ot_hours" := JNumber(10.0)]))
    ensures AiExtract(text, complete, decode) == NoValues
  {
    FloatOfDollarRaises();
  }

  /** `float(data.get(key, 0.0))`: a missing key reads as 0.0. */
  function FieldFloat(fields: map<string, Json>, key: string): (r: Option<real>)
    ensures key !in fields ==> r == Some(0.0)
    ensures key in fields ==> r == ToFloat(fields[key])
  {
    if key in fields then ToFloat(fields[key]) else Some(0.0)
  }

  /** The three figures read from a decoded reply, or None if any read raises. */
  function ReadFields(data: Json): (r: Option<StubValues>)
    ensures r.Some? <==> data.JObject? && FieldFloat(data.fields, "reg_rate").Some?
                         && FieldFloat(data.fields, "ot_rate").Some? && FieldFloat(data.fields, "ot_hours").Some?
    ensures r.Some? ==> r.value == StubValues(FieldFloat(data.fields, "reg_rate").value,
                                              FieldFloat(data.fields, "ot_rate").value,
                                              FieldFloat(data.fields, "ot_hours").value)
  {
    match data
    case JObject(fields) =>
      var reg :- FieldFloat(fields, "reg_rate");
      var ot :- FieldFloat(fields, "ot_rate");
      var hours :- FieldFloat(fields, "ot_hours");
      Some(StubValues(reg, ot, hours))
    case _ => None
  }

  /** Everything before the `except`: None when any step between the prompt and the last `float()` raises. */
  function TryExtract(text: string, complete: Completion, decode: Decoder): (r: Option<StubValues>)
    ensures r.None? <==>
      || complete(Prompt(text)).None?
      || decode(CleanReply(complete(Prompt(text)).value)).None?
      || ReadFields(decode(CleanReply(complete(Prompt(text)).value)).value).None?
  {
    var raw :- complete(Prompt(text));
    var data :- decode(CleanReply(raw));
    ReadFields(data)
  }

  /**
   * `extract_stub_values_ai(text)`: the figures of the reply, or the all-zero
   * stub when anything fails.  The result is either exactly what the reply
   * says for all three keys, or exactly NoValues.
   */
  function AiExtract(text: string, complete: Completion, decode: Decoder): (r: StubValues)
    ensures complete(Prompt(text)).None? ==> r == NoValues
    ensures complete(Prompt(text)).Some? && decode(CleanReply(complete(Prompt(text)).value)).None? ==> r == NoValues
    ensures complete(Prompt(text)).Some? && decode(CleanReply(complete(Prompt(text)).value)).Some? ==>
      var fields := ReadFields(decode(CleanReply(complete(Prompt(text)).value)).value);
      r == if fields.Some? then fields.value else NoValues
    ensures r == NoValues || (
      && complete(Prompt(text)).Some?
      && decode(CleanReply(complete(Prompt(text)).value)).Some?
      && var data := decode(CleanReply(complete(Prompt(text)).value)).value;
      && data.JObject?
      && FieldFloat(data.fields, "reg_rate") == Some(r.regRate)
      && FieldFloat(data.fields, "ot_rate") == Some(r.otRate)
      && FieldFloat(data.fields, "ot_hours") == Some(r.otHours))
  {
    match TryExtract(text, complete, decode)
    case Some(v) => v
    case None => NoValues
  }

  /** A reply that is not a JSON object, or has a key `float()` rejects, gives the all-zero stub. */
  lemma UnreadableReplyGivesNoValues(text: string, complete: Completion, decode: Decoder)
    requires complete(Prompt(text)).Some?
    requires var d := decode(CleanReply(complete(Prompt(text)).value));
      d.Some? && ReadFields(d.value).None?
    ensures AiExtract(text, complete, decode) == NoValues
  {
  }

  /** When the reply is read in full, the stub is exactly the three values it gives. */
  lemma ReadableReplyIsTaken(text: string, complete: Completion, decode: Decoder, v: StubValues)
    requires complete(Prompt(text)).Some?
    requires var d := decode(CleanReply(complete(Prompt(text)).value));
      d.Some? && ReadFields(d.value) == Some(v)
    ensures AiExtract(text, complete, decode) == v
  {
  }

  // ---------------------------------------------------------------------
  // Code fences
  // ---------------------------------------------------------------------

  predicate NoBacktick(s: string) {
    forall k :: 0 <= k < |s| ==> s[k] != '`'
  }

  /** A reply with no backtick in it is only stripped. */
  lemma PlainReplyIsStripped(raw: string)
    requires NoBacktick(raw)
    ensures CleanReply(raw) == Strip(raw)
  {
    var t := Strip(raw);
    StripIsSlice(raw);
    assert NoBacktick(t);
    ReplaceAllSkips(t, [], JsonFence, "");
    assert t + [] == t;
    ReplaceAllSkips(t, [], Fence, "");
    StripIdempotent(raw);
  }

  /** The fenced reply "```json" + body + "```" is read as the stripped body, when the body itself has no backtick. */
  lemma FencedReplyIsUnwrapped(body: string)
    requires NoBacktick(body)
    ensures CleanReply(JsonFence + (body + Fence)) == Strip(body)
  {
    FencedReplyNotStripped(body);
    JsonFenceRemoved(body);
    ClosingFenceRemoved(body);
  }

  lemma FencedReplyNotStripped(body: string)
    ensures Strip(JsonFence + (body + Fence)) == JsonFence + (body + Fence)
  {
    var raw := JsonFence + (body + Fence);
    assert raw[0] == '`' && raw[|raw| - 1] == '`';
    StripUnchanged(raw);
  }

  lemma JsonFenceRemoved(body: string)
    requires NoBacktick(body)
    ensures ReplaceAll(JsonFence + (body + Fence), JsonFence, "") == body + Fence
  {
    ReplaceAllDropHead(JsonFence, body + Fence);
    BodyKeptByJsonFence(body);
  }

  lemma ClosingFenceRemoved(body: string)
    requires NoBacktick(body)
    ensures ReplaceAll(body + Fence, Fence, "") == body
  {
    ReplaceAllSkips(body, Fence, Fence, "");
    FenceRemoved();
    assert body + [] == body;
  }

  lemma BodyKeptByJsonFence(body: string)
    requires NoBacktick(body)
    ensures ReplaceAll(body + Fence, JsonFence, "") == body + Fence
  {
    assert JsonFence[0] == '`';
    ReplaceAllSkips(body, Fence, JsonFence, "");
    FenceKeptByJsonFence();
  }

  lemma FenceKeptByJsonFence()
    ensures ReplaceAll(Fence, JsonFence, "") == Fence
  {
  }

  lemma FenceRemoved()
    ensures ReplaceAll(Fence, Fence, "") == []
  {
    assert Fence + [] == Fence;
    ReplaceAllDropHead(Fence, []);
  }

  /** Whitespace around the fences, as models often add, does not change what is decoded. */
  lemma SpacedFencedReplyIsUnwrapped(before: string, body: string, after: string)
    requires forall k :: 0 <= k < |before| ==> IsSpace(before[k])
    requires forall k :: 0 <= k < |after| ==> IsSpace(after[k])
    requires NoBacktick(body)
    ensures CleanReply(before + (JsonFence + (body + Fence)) + after) == Strip(body)
  {
    var inner := JsonFence + (body + Fence);
    StripSurrounded(before, inner, after);
    FencedReplyIsUnwrapped(body);
    assert inner[0] == '`' && inner[|inner| - 1] == '`';
    StripUnchanged(inner);
  }

  /** Strip of a text framed by whitespace is Strip of the text in the frame. */
  lemma StripSurrounded(before: string, inner: string, after: string)
    requires forall k :: 0 <= k < |before| ==> IsSpace(before[k])
    requires forall k :: 0 <= k < |after| ==> IsSpace(after[k])
    requires inner != [] && !IsSpace(inner[0]) && !IsSpace(inner[|inner| - 1])
    ensures Strip(before + inner + after) == inner
  {
    var s := before + inner + after;
    TrimStartSkips(before, inner + after);
    assert s == before + (inner + after);
    TrimEndSkips(inner, after);
  }

  lemma {:induction false} TrimStartSkips(w: string, t: string)
    requires forall k :: 0 <= k < |w| ==> IsSpace(w[k])
    requires t != [] && !IsSpace(t[0])
    ensures TrimStart(w + t) == t
  {
    if w == [] {
      assert w + t == t;
    } else {
      assert (w + t)[1..] == w[1..] + t;
      TrimStartSkips(w[1..], t);
    }
  }

  lemma {:induction false} TrimEndSkips(t: string, w: string)
    requires forall k :: 0 <= k < |w| ==> IsSpace(w[k])
    requires t != [] && !IsSpace(t[|t| - 1])
    ensures TrimEnd(t + w) == t
  {
    if w == [] {
      assert t + w == t;
    } else {
      var u := t + w;
      assert u[..|u| - 1] == t + w[..|w| - 1];
      TrimEndSkips(t, w[..|w| - 1]);
    }
  }
}
