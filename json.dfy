/**
 * JSON records as the cache layer sees them: Gson's JsonObject is a map from
 * field name to JSON value, and the fast store and the durable table hold the
 * text `JsonObject.toString()` produces. Parsing and rendering are foreign
 * library calls, so text is modelled abstractly: it is either a text that
 * reads as a record or some other string.
 */
module Json {

  datatype Option<+T> = None | Some(value: T)

  /** A JSON value (Gson's JsonElement tree). Numbers keep their literal text. */
  datatype Value =
    | Null
    | Bool(b: bool)
    | Number(literal: string)
    | Str(s: string)
    | Array(items: seq<Value>)
    | Object(members: map<string, Value>)

  /** A serialized entity: the members of a JsonObject. */
  type Record = map<string, Value>

  /**
   * A string held by the fast store or by a table cell, classed by what Gson
   * makes of it: `Rendered(r)` stands for every text Gson reads as the object
   * `r` (its own rendering among them), `Raw` for text it does not read as an
   * object.
   */
  datatype Text = Rendered(record: Record) | Raw(chars: string)

  /** The three ways `gson.fromJson(text, JsonObject.class)` can end. */
  datatype Parsed = Parsed(record: Record) | Blank | Invalid

  predicate IsWhitespace(c: char) {
    c == ' ' || c == '\t' || c == '\n' || c == '\r'
  }

  predicate IsBlank(chars: string) {
    forall i :: 0 <= i < |chars| ==> IsWhitespace(chars[i])
  }

  /** `record.toString()`. */
  function Render(record: Record): Text {
    Rendered(record)
  }

  /**
   * `gson.fromJson(text, JsonObject.class)`: text that reads as an object
   * yields the object, whitespace-only text yields null, and anything else
   * throws. Other texts Gson reads as no value (comments only) are not told
   * apart from invalid text.
   */
  function Parse(text: Text): (p: Parsed)
    ensures p.Parsed? <==> text.Rendered?
    ensures p.Blank? <==> text.Raw? && IsBlank(text.chars)
  {
    match text
    case Rendered(r) => Parsed(r)
    case Raw(chars) => if IsBlank(chars) then Blank else Invalid
  }

  /** `String.isEmpty()` on the text. */
  predicate IsEmptyText(text: Text) {
    text == Raw("")
  }

  /** Parsing what was rendered gives the record back, and a rendering is never empty. */
  lemma ParseRender(record: Record)
    ensures Parse(Render(record)) == Parsed(record)
    ensures !IsEmptyText(Render(record))
  {
  }
}
