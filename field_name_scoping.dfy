/** The scope of a field name written inside the aggregate value of a custom option
    (`option (ext) = { code: 68 }`, `[(ext) = { name { value: 'x' } }]`): the fields
    that such a name may resolve to. This is the rule behind the plugin's
    `ProtobufScopeProvider.scope_FieldName_target` for normal field names.

    The host message type of a name at the top of the aggregate is the declared type
    of the extension field `ext`, not the options message that `ext` extends; the host
    of a name inside a nested aggregate `name { ... }` or `name: { ... }` is the
    declared type of the field `name` in the enclosing host. The scope is the host's
    fields in declaration order, or nothing when the host cannot be determined. */
module FieldNameScoping {
  import opened Options

  datatype Modifier = Optional | Required | Repeated

  /** A field's declared type: a scalar keyword or a reference to a message by name. */
  datatype TypeRef = ScalarType(keyword: string) | MessageRef(messageName: string)

  /** A field declaration, with the custom options written in brackets after it. */
  datatype Field = Field(modifier: Modifier, fieldType: TypeRef, name: string, tag: nat, options: seq<CustomOption>)

  datatype Message = Message(name: string, fields: seq<Field>)

  /** An `extend Extendee { ... }` block. */
  datatype Extend = Extend(extendee: string, fields: seq<Field>)

  /** A custom option `(extension) = value`, at file level or in a field's brackets. */
  datatype CustomOption = CustomOption(extension: string, value: Value)

  /** An option value: a scalar, or an aggregate `{ ... }` of named values. */
  datatype Value = Scalar(text: string) | Aggregate(fields: seq<ValueField>)

  /** One `name: value` entry of an aggregate; `hasColon` is false for the nested
      notation `name { ... }`. */
  datatype ValueField = ValueField(name: string, hasColon: bool, value: Value)

  /** A proto file together with the declarations it imports (the options messages
      of `descriptor.proto` among them), with messages named by their full names. */
  datatype Proto = Proto(messages: seq<Message>, extensions: seq<Extend>, options: seq<CustomOption>)

  // ---------------------------------------------------------------------------
  // Lookups

  function FieldName(f: Field): string { f.name }
  function MessageName(m: Message): string { m.name }

  /** The first declaration named `name`, where `nameOf` gives a declaration's name;
      used for fields (`FieldName`) and for messages (`MessageName`). */
  function FindFirst<T>(xs: seq<T>, nameOf: T -> string, name: string): (r: Option<T>)
    ensures r.Some? <==> exists i :: 0 <= i < |xs| && nameOf(xs[i]) == name
    ensures r.Some? ==> r.value in xs && nameOf(r.value) == name
  {
    if xs == [] then None
    else if nameOf(xs[0]) == name then Some(xs[0])
    else
      var r := FindFirst(xs[1..], nameOf, name);
      assert forall i :: 1 <= i < |xs| ==> xs[i] == xs[1..][i - 1];
      r
  }

  /** The lookup is the earliest declaration with that name. */
  lemma {:induction false} FindFirstEarliest<T>(xs: seq<T>, nameOf: T -> string, name: string, i: nat)
    requires i < |xs| && nameOf(xs[i]) == name
    requires forall j :: 0 <= j < i ==> nameOf(xs[j]) != name
    ensures FindFirst(xs, nameOf, name) == Some(xs[i])
  {
    if i > 0 {
      FindFirstEarliest(xs[1..], nameOf, name, i - 1);
    }
  }

  /** The fields declared by all `extend` blocks, in order. */
  function ExtensionFields(extensions: seq<Extend>): (r: seq<Field>)
    ensures forall f :: f in r <==> exists e :: e in extensions && f in e.fields
  {
    if extensions == [] then []
    else extensions[0].fields + ExtensionFields(extensions[1..])
  }

  /** The message a declared type names, if it names one that is declared. */
  function MessageOf(p: Proto, t: TypeRef): (r: Option<Message>)
    ensures r.Some? ==> r.value in p.messages && t == MessageRef(r.value.name)
  {
    if t.MessageRef? then FindFirst(p.messages, MessageName, t.messageName) else None
  }

  /** The host of the values nested under entry `e` of an aggregate hosted by `host`:
      the declared message type of the field of `host` that `e` names. */
  function ChildHost(p: Proto, host: Message, e: ValueField): (r: Option<Message>)
    ensures r.Some? ==> r.value in p.messages
    ensures r.Some? ==> exists f :: f in host.fields && f.name == e.name && f.fieldType == MessageRef(r.value.name)
  {
    match FindFirst(host.fields, FieldName, e.name)
    case None => None
    case Some(f) => MessageOf(p, f.fieldType)
  }

  // ---------------------------------------------------------------------------
  // References inside an option value

  /** The entry that a path of indices reaches, descending through aggregates; a path
      that leaves the value reaches nothing. */
  function EntryAt(v: Value, ref: seq<nat>): (r: Option<ValueField>)
    decreases ref
  {
    if ref == [] || !v.Aggregate? || ref[0] >= |v.fields| then None
    else if |ref| == 1 then Some(v.fields[ref[0]])
    else EntryAt(v.fields[ref[0]].value, ref[1..])
  }

  /** The host message of the entry reached by `ref` in value `v`, when `v` is hosted
      by `host`. A host is found only for an entry that exists, and it is either the
      starting host or a declared message. */
  function Walk(p: Proto, host: Message, v: Value, ref: seq<nat>): (r: Option<Message>)
    ensures r.Some? ==> EntryAt(v, ref).Some?
    ensures r.Some? ==> r.value == host || r.value in p.messages
    ensures |ref| == 1 ==> (r.Some? <==> EntryAt(v, ref).Some?) && (r.Some? ==> r.value == host)
    decreases ref
  {
    if ref == [] || !v.Aggregate? || ref[0] >= |v.fields| then None
    else if |ref| == 1 then Some(host)
    else
      var entry := v.fields[ref[0]];
      match ChildHost(p, host, entry)
      case None => None
      case Some(m) => Walk(p, m, entry.value, ref[1..])
  }

  /** The message hosting the declared type of the option's extension field. */
  function ExtensionHost(p: Proto, opt: CustomOption): (r: Option<Message>)
    ensures r.Some? ==> r.value in p.messages
    ensures r.Some? ==> exists f :: f in ExtensionFields(p.extensions) && f.name == opt.extension
                                    && f.fieldType == MessageRef(r.value.name)
  {
    match FindFirst(ExtensionFields(p.extensions), FieldName, opt.extension)
    case None => None
    case Some(ext) => MessageOf(p, ext.fieldType)
  }

  /** The host message type of the field name reached by `ref` in the option's value. */
  function HostType(p: Proto, opt: CustomOption, ref: seq<nat>): (r: Option<Message>)
    ensures r.Some? ==> r.value in p.messages && EntryAt(opt.value, ref).Some?
  {
    match ExtensionHost(p, opt)
    case None => None
    case Some(m) => Walk(p, m, opt.value, ref)
  }

  /** The candidates for the field name reached by `ref`: the fields of its host type,
      in declaration order; empty when the host cannot be determined. */
  function Scope(p: Proto, opt: CustomOption, ref: seq<nat>): (r: seq<Field>)
    ensures r != [] ==> exists m :: m in p.messages && r == m.fields
    ensures ExtensionHost(p, opt).None? || EntryAt(opt.value, ref).None? ==> r == []
  {
    match HostType(p, opt, ref)
    case None => []
    case Some(m) => m.fields
  }

  // ---------------------------------------------------------------------------
  // The rule

  /** A name at the top of the aggregate is hosted by the extension field's declared
      message type. */
  lemma TopLevelHost(p: Proto, opt: CustomOption, i: nat)
    requires opt.value.Aggregate? && i < |opt.value.fields|
    ensures HostType(p, opt, [i]) == ExtensionHost(p, opt)
  {
  }

  /** A name one level deeper than `ref` is hosted by the declared message type of the
      field that the entry at `ref` names in its own host, provided that entry holds
      an aggregate with an entry at index `j`; otherwise it has no host. */
  lemma {:induction false} WalkDeeper(p: Proto, host: Message, v: Value, ref: seq<nat>, j: nat)
    requires ref != []
    ensures Walk(p, host, v, ref + [j]) ==
      match Walk(p, host, v, ref)
      case None => None
      case Some(h) =>
        var e := EntryAt(v, ref).value;
        if e.value.Aggregate? && j < |e.value.fields| then ChildHost(p, h, e) else None
    decreases ref
  {
    assert (ref + [j])[0] == ref[0];
    if |ref| > 1 && v.Aggregate? && ref[0] < |v.fields| {
      assert (ref + [j])[1..] == ref[1..] + [j];
      var entry := v.fields[ref[0]];
      if ChildHost(p, host, entry).Some? {
        WalkDeeper(p, ChildHost(p, host, entry).value, entry.value, ref[1..], j);
      }
    } else if |ref| == 1 && v.Aggregate? && ref[0] < |v.fields| {
      assert (ref + [j])[1..] == [j];
    }
  }

  /** The nested rule for option values: the host of a name inside a nested aggregate
      is the declared type of the enclosing field, found in the enclosing host. The
      outer host is never a fallback: when the enclosing field has no declared message
      type, there is no host. */
  lemma NestedHost(p: Proto, opt: CustomOption, ref: seq<nat>, j: nat)
    requires ref != []
    ensures HostType(p, opt, ref + [j]) ==
      match HostType(p, opt, ref)
      case None => None
      case Some(h) =>
        var e := EntryAt(opt.value, ref).value;
        if e.value.Aggregate? && j < |e.value.fields| then ChildHost(p, h, e) else None
  {
    if ExtensionHost(p, opt).Some? {
      WalkDeeper(p, ExtensionHost(p, opt).value, opt.value, ref, j);
    }
  }

  /** Two values that differ only in writing `name { ... }` or `name: { ... }`. No
      lookup reads `hasColon`: the grammar accepts the colon before a nested aggregate
      as optional and does not record it, so the notation cannot change a host. */
  predicate SameUpToNotation(v: Value, w: Value)
  {
    match v
    case Scalar(t) => w == Scalar(t)
    case Aggregate(vs) =>
      && w.Aggregate? && |w.fields| == |vs|
      && forall i :: 0 <= i < |vs| ==>
           vs[i].name == w.fields[i].name && SameUpToNotation(vs[i].value, w.fields[i].value)
  }

  /** The notation of nested aggregates does not change any host. */
  lemma {:induction false} WalkIgnoresNotation(p: Proto, host: Message, v: Value, w: Value, ref: seq<nat>)
    requires SameUpToNotation(v, w)
    ensures Walk(p, host, v, ref) == Walk(p, host, w, ref)
    decreases ref
  {
    if ref != [] && v.Aggregate? && ref[0] < |v.fields| && |ref| > 1 {
      var e := v.fields[ref[0]];
      var e' := w.fields[ref[0]];
      assert e.name == e'.name;
      if ChildHost(p, host, e).Some? {
        WalkIgnoresNotation(p, ChildHost(p, host, e).value, e.value, e'.value, ref[1..]);
      }
    }
  }

  /** Both nesting notations give the same scope. */
  lemma ScopeIgnoresNotation(p: Proto, ext: string, v: Value, w: Value, ref: seq<nat>)
    requires SameUpToNotation(v, w)
    ensures Scope(p, CustomOption(ext, v), ref) == Scope(p, CustomOption(ext, w), ref)
  {
    var o, o' := CustomOption(ext, v), CustomOption(ext, w);
    assert ExtensionHost(p, o) == ExtensionHost(p, o');
    if ExtensionHost(p, o).Some? {
      WalkIgnoresNotation(p, ExtensionHost(p, o).value, v, w, ref);
    }
  }
}
