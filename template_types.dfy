/** The types of the template API that the WordXML processor works with:
    parameter descriptions (TemplateInput), the value types, the fields of
    the document a template is bound to, and the shared date format. */
module TemplateTypes {

  datatype Option<T> = None | Some(value: T)

  /** The exceptions the processor lets escape, by kind. */
  datatype Error =
    | NullDereference            // a null reference is dereferenced
    | IllegalArgument        // dom4j refuses to add null text to an element
    | IndexOutOfBounds       // a property element has no value element
    | FileNotFound           // the unzipped package has no docProps/custom.xml
    | MalformedXml           // the custom properties stream does not parse
    | DateParse(text: string) // the date format refuses this text

  datatype Result<T> = Ok(value: T) | Err(error: Error)

  /** The three value types a template parameter can have. */
  datatype InputType = StringValue | BooleanValue | DateValue

  /** A java.util.Date: an instant in milliseconds since the epoch. */
  datatype Date = Date(millis: int)

  /** The processor's shared SimpleDateFormat (pattern
      yyyy-MM-dd'T'hh:mm:ss'Z', which the model does not interpret), given
      by its two operations; parse yields None where SimpleDateFormat
      throws. */
  datatype DateFormat = DateFormat(format: Date -> string, parse: string -> Option<Date>)

  /** The value a document field holds: null, or an object of one of the
      classes the processor distinguishes. OtherField is any other class,
      kept as the text its toString gives. */
  datatype FieldValue =
    | NullValue
    | StringField(s: string)
    | BooleanField(b: bool)
    | DateField(d: Date)
    | OtherField(repr: string)

  /** The document a template is bound to: its fields by property path.
      A path that is not a key is a property the document does not have. */
  type Document = map<string, FieldValue>

  /** One template parameter. None stands for a null reference; a parameter
      is source-linked exactly when it names a source field. */
  datatype TemplateInput = TemplateInput(
    name: Option<string>,
    inputType: InputType,
    source: Option<string>,
    stringValue: Option<string>,
    booleanValue: Option<bool>,
    dateValue: Option<Date>)
  {
    predicate IsSourceValue() { source.Some? }
  }

  /** Boolean.toString. */
  function BooleanToString(b: bool): string {
    if b then "true" else "false"
  }

  function LowerAscii(c: char): char {
    if 'A' <= c <= 'Z' then (c as int + 32) as char else c
  }

  /** new Boolean(s): true exactly when s equals "true" ignoring case. No
      character outside ASCII changes case to one of the letters of "true",
      so an ASCII case fold decides equalsIgnoreCase here. */
  function ParseBoolean(s: string): bool {
    |s| == 4 && LowerAscii(s[0]) == 't' && LowerAscii(s[1]) == 'r'
      && LowerAscii(s[2]) == 'u' && LowerAscii(s[3]) == 'e'
  }

  /** Object.toString of a non-null field value that is not a Date. */
  function FieldText(v: FieldValue): string
    requires !v.NullValue? && !v.DateField?
  {
    match v
    case StringField(s) => s
    case BooleanField(b) => BooleanToString(b)
    case OtherField(repr) => repr
  }
}
