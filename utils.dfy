/**
 * src/plugin/utils.ts: reading a component property's value as a string,
 * and the text of the error message sent to the UI.
 */
module Utils {
  import opened Wrappers

  /**
   * The JavaScript values a component property can hold. `text` is what
   * `String(x)` renders for a number or an object; an object may carry a
   * `value` key and a `name` key (present or absent, holding any value).
   */
  datatype JsValue =
    | JsString(s: string)
    | JsNumber(text: string)
    | JsBoolean(b: bool)
    | JsNull
    | JsUndefined
    | JsObject(value: Option<JsValue>, name: Option<JsValue>, text: string)

  /** `String(x)`. */
  function Str(v: JsValue): string
  {
    match v
    case JsString(s) => s
    case JsNumber(t) => t
    case JsBoolean(b) => if b then "true" else "false"
    case JsNull => "null"
    case JsUndefined => "undefined"
    case JsObject(_, _, t) => t
  }

  /** JavaScript truthiness: `''`, `0`, `NaN`, `false`, `null` and `undefined` are falsy. */
  predicate Truthy(v: JsValue)
  {
    match v
    case JsString(s) => s != ""
    case JsNumber(t) => t != "0" && t != "NaN"
    case JsBoolean(b) => b
    case JsNull => false
    case JsUndefined => false
    case JsObject(_, _, _) => true
  }

  /**
   * extractPropertyValue: a string is returned as it is; an object yields
   * its `value` if it has that key, else its `name` if it has that key;
   * anything else is rendered with `String`.
   */
  function ExtractPropertyValue(v: JsValue): (r: string)
    // outside objects that carry `value` or `name`, the result is String(v)
    ensures !(v.JsObject? && (v.value.Some? || v.name.Some?)) ==> r == Str(v)
    // an object is looked through: `value` wins over `name`
    ensures v.JsObject? && v.value.Some? ==> r == Str(v.value.value)
    ensures v.JsObject? && v.value.None? && v.name.Some? ==> r == Str(v.name.value)
  {
    match v
    case JsString(s) => s
    case JsObject(value, name, _) =>
      if value.Some? then Str(value.value)
      else if name.Some? then Str(name.value)
      else Str(v)
    case _ => Str(v)
  }

  /** Extracting again from the extracted string changes nothing. */
  lemma ExtractIdempotent(v: JsValue)
    ensures ExtractPropertyValue(JsString(ExtractPropertyValue(v))) == ExtractPropertyValue(v)
  {
  }

  /** What a `catch` block receives: an `Error` with a message, or any other thrown value. */
  datatype Thrown = ErrorObject(message: string) | OtherThrown(v: JsValue)

  /** The message of a thrown value, `'Unknown error'` when it is not an `Error`. */
  function ThrownMessage(e: Thrown): string
  {
    if e.ErrorObject? then e.message else "Unknown error"
  }

  /** handleError's UI message: `${context}: ${message}`. */
  function ErrorMessage(context: string, e: Thrown): (r: string)
    ensures |r| == |context| + 2 + |ThrownMessage(e)|
    ensures r[..|context|] == context && r[|context|..|context| + 2] == ": "
    ensures r[|context| + 2..] == ThrownMessage(e)
  {
    context + ": " + ThrownMessage(e)
  }

  /** A message posted to the UI: its `type` and its `message` text. */
  datatype UiMessage = UiMessage(kind: string, text: string)

  /** The context holds no `": "`, as none of the literal contexts the plugin passes does. */
  predicate NoSeparator(context: string)
  {
    forall i :: 0 <= i < |context| - 1 ==> !(context[i] == ':' && context[i + 1] == ' ')
  }

  /** The contexts the plugin reports under: `Message handler`, `Initialization failed` and
      `Failed to create interaction`. */
  predicate IsPluginContext(context: string)
  {
    context == "Message handler" || context == "Initialization failed" || context == "Failed to create interaction"
  }

  /** Whether a `": "` starts at position `i` of `r`. */
  predicate SeparatorAt(r: string, i: int)
  {
    0 <= i && i + 1 < |r| && r[i] == ':' && r[i + 1] == ' '
  }

  /** For a context without `": "`, the context ends at the message's first `": "`. */
  lemma {:induction false} ContextEndsAtFirstSeparator(context: string, e: Thrown)
    requires NoSeparator(context)
    ensures SeparatorAt(ErrorMessage(context, e), |context|)
    ensures forall i :: 0 <= i < |context| ==> !SeparatorAt(ErrorMessage(context, e), i)
  {
    var r := ErrorMessage(context, e);
    forall i | 0 <= i < |context|
      ensures !SeparatorAt(r, i)
    {
      if i + 1 < |context| {
        assert r[i] == context[i] && r[i + 1] == context[i + 1];
      } else {
        assert r[i + 1] == ':';
      }
    }
  }

  /** For contexts without `": "`, the context and the cause can be read back from the message. */
  lemma ErrorMessageInjective(c1: string, e1: Thrown, c2: string, e2: Thrown)
    requires NoSeparator(c1) && NoSeparator(c2) && ErrorMessage(c1, e1) == ErrorMessage(c2, e2)
    ensures c1 == c2 && ThrownMessage(e1) == ThrownMessage(e2)
  {
    var r := ErrorMessage(c1, e1);
    ContextEndsAtFirstSeparator(c1, e1);
    ContextEndsAtFirstSeparator(c2, e2);
    assert |c1| == |c2|;
    assert c1 == r[..|c1|] == c2;
    assert ThrownMessage(e1) == r[|c1| + 2..] == ThrownMessage(e2);
  }

  /** The plugin's own contexts hold no `": "`, so its error messages determine context and cause. */
  lemma PluginErrorMessagesInjective(c1: string, e1: Thrown, c2: string, e2: Thrown)
    requires IsPluginContext(c1) && IsPluginContext(c2) && ErrorMessage(c1, e1) == ErrorMessage(c2, e2)
    ensures c1 == c2 && ThrownMessage(e1) == ThrownMessage(e2)
  {
    PluginContextsHaveNoSeparator(c1);
    PluginContextsHaveNoSeparator(c2);
    ErrorMessageInjective(c1, e1, c2, e2);
  }

  lemma PluginContextsHaveNoSeparator(context: string)
    requires IsPluginContext(context)
    ensures NoSeparator(context)
  {
    assert ':' !in context;
  }
}
