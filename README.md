# Resolution core of the protobuf-dt Eclipse plugin, in Dafny

This project models three pieces of name and import resolution in protobuf-dt, an
Eclipse editor for Protocol Buffers (proto2) files:

- **Import resolution** (`ImportResolution`, `import_resolution.dfy`). This is the
  plugin's `MultipleDirectoriesFileResolverStrategy`. It maps an `import "a/b.proto"`
  string to a URI by searching the configured import roots in two passes.
  - First pass: for each root in listed order, compose
    `prefix + root + '/' + import`. The prefix is the platform-resource prefix for a
    workspace root and the file prefix otherwise. The first composed URI that exists
    wins.
  - Second pass: each workspace root set aside during the first pass is mapped, in
    order, to its file-system directory and tried again with the file prefix.
  - Otherwise: nothing.

  The method `ResolveUri` keeps the source's two loops, its early returns and its
  accumulated list. It is proved equal to the specification function `Resolution`.
  The lemmas prove the properties of `Resolution`: precedence, order, which roots are
  retried, URI shape, and when the result is empty.
- **Element naming** (`Naming`, `naming.dfy`). This is the plugin's `NameResolver`.
  The default-value field option `[default = ...]` is always named `"default"`.
  Any other element is named by its `name` attribute when that attribute holds a
  string, and has no name otherwise. The reflective attribute lookup becomes a closed
  datatype of element kinds. `NameOf` is a total function, so it cannot fail and has
  no side effects.
- **Field-name scope in aggregate option values** (`FieldNameScoping`,
  `field_name_scoping.dfy`, and `FieldNameScopeScenarios`,
  `field_name_scope_scenarios.dfy`). This is the rule that the plugin's integration
  test `ProtobufScopeProvider_scope_FieldName_target_with_NormalFieldName_Test`
  asserts of `scope_FieldName_target`.
  - A field name inside the aggregate value of a custom option `(ext) = { ... }` is
    scoped to the fields of `ext`'s declared message type. This holds at file level
    and in a field's brackets.
  - A name inside a nested aggregate `f { ... }` or `f: { ... }` is scoped to the
    fields of `f`'s declared message type.

  The four documents of that test are proved as lemmas.

`Options` (`options.dfy`) holds the `Option` datatype. `None` stands for the `null`
that the Java code returns.

Two facts about the import search are easy to miss:

- The second pass runs only when no root of either kind matched. The first loop
  returns at its first hit (MultipleDirectoriesFileResolverStrategy.java:39-41).
- Every composed URI starts with the platform-resource prefix or the file prefix
  (MultipleDirectoriesFileResolverStrategy.java:68).

## Model

| member | source | states |
|---|---|---|
| `ImportResolution.ResolveUri` | com.google.eclipse.protobuf.ui/src/com/google/eclipse/protobuf/ui/scoping/MultipleDirectoriesFileResolverStrategy.java:34-55 | The two-loop strategy returns exactly `Resolution`: the first existing first-pass candidate, else the first existing second-pass candidate over the collected workspace roots, else nothing |
| `ImportResolution.ResolveExisting` | com.google.eclipse.protobuf.ui/src/com/google/eclipse/protobuf/ui/scoping/MultipleDirectoriesFileResolverStrategy.java:77-79 | A URI comes back if and only if the existence check accepts it, and then unchanged |
| `ImportResolution.UriParts` | com.google.eclipse.protobuf.ui/src/com/google/eclipse/protobuf/ui/scoping/MultipleDirectoriesFileResolverStrategy.java:67-75 | A composed URI splits into the prefix chosen by the root's kind (platform-resource for workspace roots, file otherwise), the root, the separator `/` and the import string, in that order |
| `ImportResolution.SecondPassUsesFilePrefix` | com.google.eclipse.protobuf.ui/src/com/google/eclipse/protobuf/ui/scoping/MultipleDirectoriesFileResolverStrategy.java:62-64 | A second-pass candidate always starts with the file prefix, followed by the mapped file-system location of the workspace root |
| `ImportResolution.DirectCandidates` | com.google.eclipse.protobuf.ui/src/com/google/eclipse/protobuf/ui/scoping/MultipleDirectoriesFileResolverStrategy.java:57-60 | There is one first-pass candidate per configured root, in listed order, each composed from that root's value and kind |
| `ImportResolution.FileSystemCandidates` | com.google.eclipse.protobuf.ui/src/com/google/eclipse/protobuf/ui/scoping/MultipleDirectoriesFileResolverStrategy.java:47-49 | There is one second-pass candidate per collected directory, in order, each built from that directory's mapped location |
| `ImportResolution.FirstExisting` | com.google.eclipse.protobuf.ui/src/com/google/eclipse/protobuf/ui/scoping/MultipleDirectoriesFileResolverStrategy.java:37-42 | A hit of the ordered search is one of the candidates and passed the existence check |
| `ImportResolution.FirstExistingFindsEarliest` | com.google.eclipse.protobuf.ui/src/com/google/eclipse/protobuf/ui/scoping/MultipleDirectoriesFileResolverStrategy.java:37-42 | The search returns the candidate at index i when it exists and no earlier candidate does |
| `ImportResolution.FirstExistingIsEarliest` | com.google.eclipse.protobuf.ui/src/com/google/eclipse/protobuf/ui/scoping/MultipleDirectoriesFileResolverStrategy.java:37-42 | Conversely, a hit sits at some index before which no candidate exists |
| `ImportResolution.FirstExistingNone` | com.google.eclipse.protobuf.ui/src/com/google/eclipse/protobuf/ui/scoping/MultipleDirectoriesFileResolverStrategy.java:47-54 | The search finds nothing if and only if no candidate exists |
| `ImportResolution.FirstExistingAppend` | com.google.eclipse.protobuf.ui/src/com/google/eclipse/protobuf/ui/scoping/MultipleDirectoriesFileResolverStrategy.java:37-53 | Searching `a + b` gives the hit in `a` if there is one; `b` is consulted only when `a` has none |
| `ImportResolution.WorkspaceRootsAppend` | com.google.eclipse.protobuf.ui/src/com/google/eclipse/protobuf/ui/scoping/MultipleDirectoriesFileResolverStrategy.java:43-45 | Collecting workspace roots distributes over concatenation, so the retried directories keep the roots' relative order |
| `ImportResolution.WorkspaceRootsMembers` | com.google.eclipse.protobuf.ui/src/com/google/eclipse/protobuf/ui/scoping/MultipleDirectoriesFileResolverStrategy.java:43-47 | A directory is retried if and only if some workspace root has it as its value; non-workspace roots are never retried |
| `ImportResolution.NoWorkspaceRootsNoRetry` | com.google.eclipse.protobuf.ui/src/com/google/eclipse/protobuf/ui/scoping/MultipleDirectoriesFileResolverStrategy.java:43-47 | With no workspace root, the list for the second pass is empty |
| `ImportResolution.ResolutionIsOneSearch` | com.google.eclipse.protobuf.ui/src/com/google/eclipse/protobuf/ui/scoping/MultipleDirectoriesFileResolverStrategy.java:37-54 | The two passes equal one first-match search over all first-pass candidates followed by all second-pass candidates, so a first-pass match takes precedence |
| `ImportResolution.ResolvedExists` | com.google.eclipse.protobuf.ui/src/com/google/eclipse/protobuf/ui/scoping/MultipleDirectoriesFileResolverStrategy.java:77-79 | A resolved URI always passed the existence check |
| `ImportResolution.FirstPassEarliestRootWins` | com.google.eclipse.protobuf.ui/src/com/google/eclipse/protobuf/ui/scoping/MultipleDirectoriesFileResolverStrategy.java:37-42 | The result is the composed URI of the earliest root whose composed URI exists |
| `ImportResolution.SecondPassEarliestWorkspaceRootWins` | com.google.eclipse.protobuf.ui/src/com/google/eclipse/protobuf/ui/scoping/MultipleDirectoriesFileResolverStrategy.java:47-53 | When no first-pass candidate exists, the result is the file-prefixed candidate of the earliest workspace root whose mapped candidate exists |
| `ImportResolution.ResolutionShape` | com.google.eclipse.protobuf.ui/src/com/google/eclipse/protobuf/ui/scoping/MultipleDirectoriesFileResolverStrategy.java:34-55 | A result is either a root's first-pass candidate, with no earlier root matching, or (when no root matched) the second-pass candidate of a collected workspace root |
| `ImportResolution.NothingResolves` | com.google.eclipse.protobuf.ui/src/com/google/eclipse/protobuf/ui/scoping/MultipleDirectoriesFileResolverStrategy.java:47-54 | The result is nothing if and only if no first-pass candidate and no second-pass candidate exists |
| `ImportResolution.NoRootsNothingResolves` | com.google.eclipse.protobuf.ui/src/com/google/eclipse/protobuf/ui/scoping/MultipleDirectoriesFileResolverStrategy.java:37-54 | With no configured roots the result is nothing |
| `Naming.NameOf` | com.google.eclipse.protobuf/src/com/google/eclipse/protobuf/naming/NameResolver.java:31-45 | The default-value option is named "default". An element of a kind with a `name` attribute has a name if and only if that attribute holds a string, and then the name is that string. An element of a kind without a `name` attribute gives null |
| `Naming.DefaultOptionIgnoresAttributes` | com.google.eclipse.protobuf/src/com/google/eclipse/protobuf/naming/NameResolver.java:32-34 | The default-value option's name is "default" whatever its own attributes hold |
| `Naming.NamedElements` | com.google.eclipse.protobuf/src/com/google/eclipse/protobuf/naming/NameResolver.java:35-39 | A string name is returned unchanged. A non-string value, an unset attribute or a missing attribute gives null |
| `Naming.DefaultNameIsShared` | com.google.eclipse.protobuf/src/com/google/eclipse/protobuf/naming/NameResolver.java:32-38 | An element whose name attribute is the string "default" gets the same name as the default-value option |
| `FieldNameScoping.FindFirst` | com.google.eclipse.protobuf.integration.test/src/com/google/eclipse/protobuf/scoping/ProtobufScopeProvider_scope_FieldName_target_with_NormalFieldName_Test.java:69-94 | A lookup by name (of a field or of a message) succeeds if and only if a declaration of that name exists, and returns such a declaration |
| `FieldNameScoping.FindFirstEarliest` | com.google.eclipse.protobuf.integration.test/src/com/google/eclipse/protobuf/scoping/ProtobufScopeProvider_scope_FieldName_target_with_NormalFieldName_Test.java:69-94 | A lookup by name returns the earliest declaration with that name |
| `FieldNameScoping.ExtensionFields` | com.google.eclipse.protobuf.integration.test/src/com/google/eclipse/protobuf/scoping/ProtobufScopeProvider_scope_FieldName_target_with_NormalFieldName_Test.java:54-56 | The extension fields are exactly the fields declared in some `extend` block |
| `FieldNameScoping.MessageOf` | com.google.eclipse.protobuf.integration.test/src/com/google/eclipse/protobuf/scoping/ProtobufScopeProvider_scope_FieldName_target_with_NormalFieldName_Test.java:54-56 | A declared type names a message only when it is a message reference to a declared message of that name |
| `FieldNameScoping.ChildHost` | com.google.eclipse.protobuf.integration.test/src/com/google/eclipse/protobuf/scoping/ProtobufScopeProvider_scope_FieldName_target_with_NormalFieldName_Test.java:69-94 | The host under an entry is a declared message that is the declared type of a field of the enclosing host named like the entry |
| `FieldNameScoping.Walk` | com.google.eclipse.protobuf.integration.test/src/com/google/eclipse/protobuf/scoping/ProtobufScopeProvider_scope_FieldName_target_with_NormalFieldName_Test.java:69-94 | A host is found only for an entry that exists, and it is the starting host or a declared message. At the top level it is the starting host exactly when the entry exists |
| `FieldNameScoping.ExtensionHost` | com.google.eclipse.protobuf.integration.test/src/com/google/eclipse/protobuf/scoping/ProtobufScopeProvider_scope_FieldName_target_with_NormalFieldName_Test.java:54-66 | The host of an option is a declared message that is the declared type of an extension field named like the option |
| `FieldNameScoping.HostType` | com.google.eclipse.protobuf.integration.test/src/com/google/eclipse/protobuf/scoping/ProtobufScopeProvider_scope_FieldName_target_with_NormalFieldName_Test.java:46-146 | A host type is always a declared message, found only for a reference to an entry that exists in the option value |
| `FieldNameScoping.Scope` | com.google.eclipse.protobuf.integration.test/src/com/google/eclipse/protobuf/scoping/ProtobufScopeProvider_scope_FieldName_target_with_NormalFieldName_Test.java:46-146 | A non-empty scope is exactly the field list, in declaration order, of some declared message. It is empty when the extension has no host or the reference reaches no entry |
| `FieldNameScoping.TopLevelHost` | com.google.eclipse.protobuf.integration.test/src/com/google/eclipse/protobuf/scoping/ProtobufScopeProvider_scope_FieldName_target_with_NormalFieldName_Test.java:46-66 | A name at the top of the aggregate is hosted by the extension field's declared type |
| `FieldNameScoping.WalkDeeper` | com.google.eclipse.protobuf.integration.test/src/com/google/eclipse/protobuf/scoping/ProtobufScopeProvider_scope_FieldName_target_with_NormalFieldName_Test.java:69-94 | One level deeper, the host is the declared type of the field that the enclosing entry names in its own host, and nothing if the enclosing entry holds no aggregate with that index |
| `FieldNameScoping.NestedHost` | com.google.eclipse.protobuf.integration.test/src/com/google/eclipse/protobuf/scoping/ProtobufScopeProvider_scope_FieldName_target_with_NormalFieldName_Test.java:69-94 | The same step stated for option references: a nested name is hosted by the enclosing field's declared message type. The outer host is never a fallback: if the enclosing field has no declared message type, there is no host |
| `FieldNameScoping.WalkIgnoresNotation` | com.google.eclipse.protobuf.integration.test/src/com/google/eclipse/protobuf/scoping/ProtobufScopeProvider_scope_FieldName_target_with_NormalFieldName_Test.java:120-146 | Values that differ only in `f { ... }` and `f: { ... }` have the same host at every path |
| `FieldNameScoping.ScopeIgnoresNotation` | com.google.eclipse.protobuf.integration.test/src/com/google/eclipse/protobuf/scoping/ProtobufScopeProvider_scope_FieldName_target_with_NormalFieldName_Test.java:120-146 | Both nesting notations give the same scope |
| `FieldNameScopeScenarios.AggregateFieldScope` | com.google.eclipse.protobuf.integration.test/src/com/google/eclipse/protobuf/scoping/ProtobufScopeProvider_scope_FieldName_target_with_NormalFieldName_Test.java:46-67 | In `option (type) = { code: 68 }`, `code` is scoped to the fields of `Type`, not to those of `FileOptions` |
| `FieldNameScopeScenarios.NestedValueScopedToNames` | com.google.eclipse.protobuf.integration.test/src/com/google/eclipse/protobuf/scoping/ProtobufScopeProvider_scope_FieldName_target_with_NormalFieldName_Test.java:69-146 | With `(type)` hosted by `Type`, `value` inside `name { ... }` or `name: { ... }` is scoped to the fields of `Names` |
| `FieldNameScopeScenarios.NestedFieldNotationInOptionScope` | com.google.eclipse.protobuf.integration.test/src/com/google/eclipse/protobuf/scoping/ProtobufScopeProvider_scope_FieldName_target_with_NormalFieldName_Test.java:69-95 | In `option (type) = { name { value: 'Address' } }`, `value` is scoped to the fields of `Names`, not to those of `Type` |
| `FieldNameScopeScenarios.FieldNotationInFieldOptionScope` | com.google.eclipse.protobuf.integration.test/src/com/google/eclipse/protobuf/scoping/ProtobufScopeProvider_scope_FieldName_target_with_NormalFieldName_Test.java:97-118 | In the field option `[(type) = { code: 68 }]`, `code` is scoped to the fields of `Type`, not to those of `FieldOptions` |
| `FieldNameScopeScenarios.NestedFieldNotationInFieldOptionScope` | com.google.eclipse.protobuf.integration.test/src/com/google/eclipse/protobuf/scoping/ProtobufScopeProvider_scope_FieldName_target_with_NormalFieldName_Test.java:120-146 | In `[(type) = { name: { value: 'Address' } }]`, `value` is scoped to the fields of `Names`, the same scope as with `name { ... }` |

## Left out

- Parsing of the path preferences is not modelled: the comma-separated list (`splitCsv`) and `DirectoryPath.parse` against the project. The strategy receives the roots already parsed, as `DirectoryPath(value, isWorkspacePath)`.
- The existence check (`Uris.exists`), the directory mapping (`PathMapping.directoryLocation`) and the two URI prefix constants belong to collaborators that are not part of this model. They are parameters, in the `Collaborators` datatype, so every property holds whatever they are.
- `URI.createURI(path).toString()` is taken to give back `path`. EMF URI normalisation is not modelled.
- Java `null` arguments and the injection of collaborators through Guice are not modelled.
- `Naming.NameOf`: EMF reflection (`SimpleAttributeResolver.NAME_RESOLVER`, `eGet`) is replaced by the closed `Element` datatype. An EMF class with a `name` attribute is `Named`, and one without is `Anonymous`. The grammar's concrete element classes are not enumerated.
- `FieldNameScoping.Scope`: the plugin's `ProtobufScopeProvider` is not part of this model. The rule is built from the four scenarios of its integration test alone. That test asserts only that the scope contains all fields of the host message; the model gives exactly those fields, in declaration order.
- `FieldNameScoping.ExtensionHost`: the reference `(ext)` is looked up by name among all extension fields. The extendee (`FileOptions`, `FieldOptions`) is not checked against where the option is written, because the test does not exercise it.
- Scoping leaves out several features: nested message declarations, package-qualified and relative type names, enums, groups, extension ranges, and the scope of the `(ext)` reference itself. It also leaves out imports and the cross-file index. The imported declarations, such as `descriptor.proto`'s options messages, are placed in the same `Proto` value.
- Scope candidates are field declarations rather than Xtext `IEObjectDescription`s, so the qualified names under which Xtext would index them are not modelled.
- The compiler and save-action preferences, the ignored-preference constant and the SWTBot UI driver are Eclipse preference-store and UI plumbing with no resolution logic, so they are not modelled.
