/** The plugin's `NameResolver`: the textual name of an element of a parsed proto
    file, as used when candidates of a scope are compared with a reference.

    The Java code finds the element's `name` attribute by reflection; here the kinds
    of element form a closed datatype that says whether an element has such an
    attribute and what it holds. */
module Naming {
  import opened Options

  /** The keyword that names the default-value pseudo-option `[default = ...]`. */
  const DefaultKeyword: string := "default"

  /** What a `name` attribute holds: a string, a value of some other type, or nothing
      (the attribute is unset). */
  datatype AttributeValue = StringValue(text: string) | OtherValue | NullValue

  /** An element of a parsed proto file, by kind:
      - the default-value field option, which may carry attributes of its own;
      - an element whose kind declares a `name` attribute, with what it holds;
      - an element whose kind has no `name` attribute at all. */
  datatype Element =
    | DefaultValueFieldOption(nameAttribute: Option<AttributeValue>)
    | Named(attribute: AttributeValue)
    | Anonymous

  /** The value of the element's `name` attribute, or nothing when its kind has no
      such attribute or the attribute is unset. */
  function NameFeatureOf(e: Element): AttributeValue
  {
    match e
    case DefaultValueFieldOption(a) => if a.Some? then a.value else NullValue
    case Named(a) => a
    case Anonymous => NullValue
  }

  /** The name of an element, or nothing (`null` in the Java code) when the element
      has no name of type string. */
  function NameOf(e: Element): (r: Option<string>)
    ensures e.DefaultValueFieldOption? ==> r == Some(DefaultKeyword)
    ensures e.Named? ==> (r.Some? <==> e.attribute.StringValue?)
    ensures e.Named? && e.attribute.StringValue? ==> r == Some(e.attribute.text)
    ensures e.Anonymous? ==> r == None
  {
    if e.DefaultValueFieldOption? then Some(DefaultKeyword)
    else
      match NameFeatureOf(e)
      case StringValue(s) => Some(s)
      case _ => None
  }

  /** The default-value option is named "default" whatever its own attributes hold:
      the kind test comes before the attribute lookup. */
  lemma DefaultOptionIgnoresAttributes(a: Option<AttributeValue>, b: Option<AttributeValue>)
    ensures NameOf(DefaultValueFieldOption(a)) == NameOf(DefaultValueFieldOption(b)) == Some("default")
  {
  }

  /** A string-valued name is returned unchanged; any other value, or none, gives no name. */
  lemma NamedElements(s: string)
    ensures NameOf(Named(StringValue(s))) == Some(s)
    ensures NameOf(Named(OtherValue)) == None
    ensures NameOf(Named(NullValue)) == None
    ensures NameOf(Anonymous) == None
  {
  }

  /** The name "default" is not reserved: an element whose name attribute is the string
      "default" gets the same name as the default-value option, so the two cannot be
      told apart by name. */
  lemma DefaultNameIsShared()
    ensures NameOf(Named(StringValue("default"))) == NameOf(DefaultValueFieldOption(None))
  {
  }
}
