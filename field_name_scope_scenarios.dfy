/** The four documents of the plugin's integration tests for the field-name scope in
    aggregate option values, and what the scope of the referenced name is in each. */
module FieldNameScopeScenarios {
  import opened Options
  import opened FieldNameScoping

  /** The options messages of `descriptor.proto` that the documents extend (a few of
      their fields). */
  const FileOptions := Message("google.protobuf.FileOptions", [
    Field(Optional, ScalarType("string"), "java_package", 1, []),
    Field(Optional, ScalarType("string"), "java_outer_classname", 8, [])])
  const FieldOptions := Message("google.protobuf.FieldOptions", [
    Field(Optional, ScalarType("bool"), "packed", 2, []),
    Field(Optional, ScalarType("bool"), "deprecated", 3, [])])

  /** `message Type { optional int32 code = 1; }` */
  const SimpleType := Message("Type", [Field(Optional, ScalarType("int32"), "code", 1, [])])

  /** `message Type { optional int32 code = 1; optional Names name = 2; }` */
  const NestingType := Message("Type", [
    Field(Optional, ScalarType("int32"), "code", 1, []),
    Field(Optional, MessageRef("Names"), "name", 2, [])])

  /** `message Names { optional string value = 1; }` */
  const Names := Message("Names", [Field(Optional, ScalarType("string"), "value", 1, [])])

  /** `extend <extendee> { optional Type type = 15478479; }` */
  function TypeExtension(extendee: string): Extend
  {
    Extend(extendee, [Field(Optional, MessageRef("Type"), "type", 15478479, [])])
  }

  /** `(type) = { code: 68 }` */
  const CodeOption := CustomOption("type", Aggregate([ValueField("code", true, Scalar("68"))]))

  /** `(type) = { name { value: 'Address' } }` */
  const NestedOption := CustomOption("type", Aggregate([
    ValueField("name", false, Aggregate([ValueField("value", true, Scalar("'Address'"))]))]))

  /** `(type) = { name: { value: 'Address' } }` */
  const NestedColonOption := CustomOption("type", Aggregate([
    ValueField("name", true, Aggregate([ValueField("value", true, Scalar("'Address'"))]))]))

  /** `message Address { optional int target = 1 [<opt>]; }` */
  function AddressWith(opt: CustomOption): Message
  {
    Message("Address", [Field(Optional, ScalarType("int"), "target", 1, [opt])])
  }

  /** File option `option (type) = { code: 68 };`: `code` is scoped to the fields of
      `Type`, the type of the extension field, not to those of `FileOptions`. */
  lemma AggregateFieldScope()
    ensures var p := Proto([FileOptions, FieldOptions, SimpleType],
                           [TypeExtension("google.protobuf.FileOptions")], [CodeOption]);
      && EntryAt(p.options[0].value, [0]).value.name == "code"
      && Scope(p, p.options[0], [0]) == SimpleType.fields
      && Scope(p, p.options[0], [0]) != FileOptions.fields
  {
    var p := Proto([FileOptions, FieldOptions, SimpleType],
                   [TypeExtension("google.protobuf.FileOptions")], [CodeOption]);
    var ext := TypeExtension("google.protobuf.FileOptions").fields[0];
    assert ExtensionFields(p.extensions) == [ext];
    FindFirstEarliest(p.messages, MessageName, "Type", 2);
    assert ExtensionHost(p, CodeOption) == Some(SimpleType);
  }

  /** In a document where `(type)` is hosted by `Type` and `Names` is declared, the
      name `value` inside `name { ... }` or `name: { ... }` is scoped to `Names`. */
  lemma NestedValueScopedToNames(p: Proto, opt: CustomOption)
    requires opt == NestedOption || opt == NestedColonOption
    requires ExtensionHost(p, opt) == Some(NestingType)
    requires FindFirst(p.messages, MessageName, "Names") == Some(Names)
    ensures Scope(p, opt, [0, 0]) == Names.fields
  {
    FindFirstEarliest(NestingType.fields, FieldName, "name", 1);
    var entry := opt.value.fields[0];
    assert ChildHost(p, NestingType, entry) == Some(Names);
    assert [0, 0][1..] == [0];
    assert Walk(p, NestingType, opt.value, [0, 0]) == Walk(p, Names, entry.value, [0]);
  }

  /** File option `option (type) = { name { value: 'Address' } };`: `value` is scoped
      to the fields of `Names`, the type of field `name` of `Type`. */
  lemma NestedFieldNotationInOptionScope()
    ensures var p := Proto([FileOptions, FieldOptions, NestingType, Names],
                           [TypeExtension("google.protobuf.FileOptions")], [NestedOption]);
      && EntryAt(p.options[0].value, [0, 0]).value.name == "value"
      && Scope(p, p.options[0], [0, 0]) == Names.fields
      && Scope(p, p.options[0], [0, 0]) != NestingType.fields
  {
    var p := Proto([FileOptions, FieldOptions, NestingType, Names],
                   [TypeExtension("google.protobuf.FileOptions")], [NestedOption]);
    var ext := TypeExtension("google.protobuf.FileOptions").fields[0];
    assert ExtensionFields(p.extensions) == [ext];
    FindFirstEarliest(p.messages, MessageName, "Type", 2);
    FindFirstEarliest(p.messages, MessageName, "Names", 3);
    assert ExtensionHost(p, NestedOption) == Some(NestingType);
    NestedValueScopedToNames(p, NestedOption);
  }

  /** Field option `[(type) = { code: 68 }]`: `code` is scoped to the fields of `Type`,
      not to those of `FieldOptions`. */
  lemma FieldNotationInFieldOptionScope()
    ensures var p := Proto([FileOptions, FieldOptions, SimpleType, AddressWith(CodeOption)],
                           [TypeExtension("google.protobuf.FieldOptions")], []);
            var opt := p.messages[3].fields[0].options[0];
      && EntryAt(opt.value, [0]).value.name == "code"
      && Scope(p, opt, [0]) == SimpleType.fields
      && Scope(p, opt, [0]) != FieldOptions.fields
  {
    var p := Proto([FileOptions, FieldOptions, SimpleType, AddressWith(CodeOption)],
                   [TypeExtension("google.protobuf.FieldOptions")], []);
    var ext := TypeExtension("google.protobuf.FieldOptions").fields[0];
    assert p.messages[3].fields[0].options[0] == CodeOption;
    assert ExtensionFields(p.extensions) == [ext];
    FindFirstEarliest(p.messages, MessageName, "Type", 2);
    assert ExtensionHost(p, CodeOption) == Some(SimpleType);
  }

  /** Field option `[(type) = { name: { value: 'Address' } }]`: `value` is scoped to the
      fields of `Names`, as with the notation without a colon. */
  lemma NestedFieldNotationInFieldOptionScope()
    ensures var p := Proto([FileOptions, FieldOptions, NestingType, Names, AddressWith(NestedColonOption)],
                           [TypeExtension("google.protobuf.FieldOptions")], []);
            var opt := p.messages[4].fields[0].options[0];
      && EntryAt(opt.value, [0, 0]).value.name == "value"
      && Scope(p, opt, [0, 0]) == Names.fields
      && Scope(p, opt, [0, 0]) == Scope(p, NestedOption, [0, 0])
  {
    var p := Proto([FileOptions, FieldOptions, NestingType, Names, AddressWith(NestedColonOption)],
                   [TypeExtension("google.protobuf.FieldOptions")], []);
    var ext := TypeExtension("google.protobuf.FieldOptions").fields[0];
    assert p.messages[4].fields[0].options[0] == NestedColonOption;
    assert ExtensionFields(p.extensions) == [ext];
    FindFirstEarliest(p.messages, MessageName, "Type", 2);
    FindFirstEarliest(p.messages, MessageName, "Names", 3);
    assert ExtensionHost(p, NestedColonOption) == Some(NestingType);
    assert ExtensionHost(p, NestedOption) == Some(NestingType);
    NestedValueScopedToNames(p, NestedColonOption);
    NestedValueScopedToNames(p, NestedOption);
  }
}
