# D-Bus application discovery (kupfer `dbusintrospect/find.py`)

This project models the discovery helper of kupfer's D-Bus introspection
plugin in Dafny. It has three parts:

- **Application resolution** (`get_matching_application`). The owned and the
  activatable bus names are concatenated and deduplicated. Every name that
  contains the requested fragment is kept. The test is case-sensitive first
  and then, failing that, case-insensitive. Exactly one match is returned.
  No match raises `BadApplication`. Several matches raise
  `InspecificApplication`, which carries the comma-joined list of matches.
- **Object-tree walk** (`get_objects`). The walk reads the introspection
  document of an object path and recurses into every `<node>` child at
  `cum_path + "/" + name`. It collects every `<interface>` with its methods
  (with `(name, direction, type)` argument triples), signals and properties.
  A path gets an entry, keyed by the path, only when it declares an interface.
  The root `""` is stored as `"/"`.
- **Error arguments** (`LinglishException.__init__`). Every empty argument is
  replaced by `'unspecified'`.

Modules:

- `Strings` (`strings.dfy`): `str.find`, ASCII `str.lower` and `str.join`.
- `Errors` (`errors.dfy`): the exception kinds, argument defaulting, and
  `Result`. Raising an exception is modelled as returning `Err`.
- `Resolver` (`resolver.dfy`): the resolver. It is a method with the source's
  loop, proved against set-level specifications.
- `Xml` (`xml.dfy`): DOM nodes as a datatype, with `nodeName`, `childNodes`,
  `getAttribute` and the element filter.
- `Introspect` (`introspect.dfy`): the walk. `GetObjects` is a recursive method
  with the source's loops and map updates. It is proved equal to the recursive
  specification function `Objects`, and the walk's properties are proved about
  `Objects`.

Inputs that replace I/O:

- The two bus calls `ListNames` and `ListActivatableNames` become the
  sequences `owned` and `activatable`.
- Introspecting a path and parsing the answer become a sequence of `XmlNode`s:
  the child nodes of the document's root `<node>`.
- A `<node>` element carries the service's answer for its own path in the field
  `introspected`. The service's object tree is therefore a finite nested value.
- `Xml.GetAttribute` stands in for minidom's `getAttribute`. It reads a missing
  attribute, or any attribute of a non-element node, as `""`.

Two details of the code that the model keeps:

- The root is the empty path `""`. It is introspected and stored as `"/"`, and
  its children become `"/name"`. A caller who passes `"/"` explicitly gets
  child paths `"//name"`, because only `""` is special-cased
  (kupfer/plugin/dbusintrospect/find.py:69-72, 80).
- Child results are merged with `update`, so a later child wins on a key
  collision. The path's own entry is stored last and wins over all of them
  (kupfer/plugin/dbusintrospect/find.py:81, 108-112).

## Model

| member | source | states |
|---|---|---|
| Errors.DefaultArgs | kupfer/plugin/dbusintrospect/find.py:22-23 | one argument out per argument in; an empty argument becomes `unspecified` and a non-empty one is kept unchanged at its position |
| Errors.Raise | kupfer/plugin/dbusintrospect/find.py:21-35 | constructing any of the three exceptions keeps its kind; its stored arguments are the given ones position by position, with each empty one replaced by `unspecified`, so none is empty |
| Errors.DefaultArgsAppend | kupfer/plugin/dbusintrospect/find.py:23 | defaulting works argument by argument, so the arguments keep their order |
| Errors.DefaultArgsIdempotent | kupfer/plugin/dbusintrospect/find.py:23 | defaulting already-defaulted arguments changes nothing |
| Strings.Find | kupfer/plugin/dbusintrospect/find.py:51 | `find` is -1 exactly when the fragment does not occur; otherwise it is the first index where it occurs |
| Strings.Lower | kupfer/plugin/dbusintrospect/find.py:54 | lower-casing keeps the length and maps every character to its lower case at the same position (ASCII letters folded, everything else kept) |
| Strings.CaseSensitiveImpliesInsensitive | kupfer/plugin/dbusintrospect/find.py:51-56 | a case-sensitive occurrence is also an occurrence after lower-casing both strings |
| Strings.Join | kupfer/plugin/dbusintrospect/find.py:60 | joining no parts gives `""`; otherwise the result starts with the first part, ends with the last, and is as long as all parts plus one separator between each pair of neighbours |
| Strings.JoinAppend | kupfer/plugin/dbusintrospect/find.py:60 | joining two non-empty lists of parts one after the other is the join of each with one separator between them |
| Strings.JoinContainsEach | kupfer/plugin/dbusintrospect/find.py:60 | every joined part occurs in the comma-joined message |
| Resolver.Uniquify | kupfer/plugin/dbusintrospect/find.py:44-46 | the candidates are duplicate-free and are exactly the names of both lists |
| Resolver.SharedNameCountedOnce | kupfer/plugin/dbusintrospect/find.py:44-46 | a name that is both owned and activatable is a candidate exactly once |
| Resolver.MatchesInLists | kupfer/plugin/dbusintrospect/find.py:49-56 | the collected list holds each matching candidate exactly once and nothing else |
| Resolver.MatchIsCaseInsensitive | kupfer/plugin/dbusintrospect/find.py:51-56 | the `if`/`elif` pair accepts a name iff its lower case contains the lower-cased request, so the case-sensitive test never changes the outcome |
| Resolver.ListedSize | kupfer/plugin/dbusintrospect/find.py:57-61 | the length of the collected list equals the number of distinct matching names |
| Resolver.GetMatchingApplication | kupfer/plugin/dbusintrospect/find.py:38-62 | returns a name iff exactly one distinct name matches, and that name is from the input lists; `BadApplication(requested)` iff none matches; `InspecificApplication` iff two or more match, and its second argument joins a duplicate-free listing of all matches with `", "` |
| Xml.Elements | kupfer/plugin/dbusintrospect/find.py:75-76 | the filter keeps exactly the element nodes of the list, and nothing else |
| Xml.ElementsAppend | kupfer/plugin/dbusintrospect/find.py:75-76 | the filter distributes over concatenation, so the kept elements stay in document order |
| Introspect.ReadArgs | kupfer/plugin/dbusintrospect/find.py:89-96 | the loop collects the `(name, direction, type)` triple of every `arg` child in document order, with a missing attribute read as `""` |
| Introspect.ReadInterface | kupfer/plugin/dbusintrospect/find.py:83-101 | the loop collects the methods, signal names and property names of an interface, each in document order |
| Introspect.PickAppend | kupfer/plugin/dbusintrospect/find.py:86-101 | collecting children distributes over concatenation, so document order is kept |
| Introspect.PickMembers | kupfer/plugin/dbusintrospect/find.py:86-101 | a collected value comes from a child with the right tag, and every such child contributes its value |
| Introspect.GetObjects | kupfer/plugin/dbusintrospect/find.py:64-113 | the recursive walk with its loop, `update` merges and item assignments returns exactly `Objects(cum_path, document)` |
| Introspect.Objects | kupfer/plugin/dbusintrospect/find.py:78-112 | every entry of a walk from a path is stored under its own `"path"` value, and that key is the path's own key (`/` for the root) or lies below `cum_path + "/"` |
| Introspect.FoundIn | kupfer/plugin/dbusintrospect/find.py:78-81 | every entry merged from the `<node>` children is stored under its own `"path"` value, below `cum_path + "/"` |
| Introspect.InterfacesInByName | kupfer/plugin/dbusintrospect/find.py:102-105 | `subdict` has a key for exactly the names of the `interface` elements, and each name maps to the methods, signals and properties of the last interface with that name |
| Introspect.InterfacesInAppend | kupfer/plugin/dbusintrospect/find.py:102-105 | interfaces are keyed by name, and a later interface of the same name replaces an earlier one |
| Introspect.FoundInAppend | kupfer/plugin/dbusintrospect/find.py:78-81 | child walks are merged left to right, so on a shared key the later child wins |
| Introspect.ElementsKeepChildWalks | kupfer/plugin/dbusintrospect/find.py:75-81 | dropping text and comment nodes first does not change the children's walks |
| Introspect.ElementsKeepInterfaces | kupfer/plugin/dbusintrospect/find.py:75-105 | dropping text and comment nodes first does not change `subdict` |
| Introspect.IgnoredNodeHasNoEffect | kupfer/plugin/dbusintrospect/find.py:78-107 | inserting a top-level node that is neither `node` nor `interface` anywhere leaves the result unchanged |
| Introspect.InterfacesInNonEmpty | kupfer/plugin/dbusintrospect/find.py:102-108 | `subdict` is non-empty exactly when the document has an `interface` element at its top level |
| Introspect.OwnEntry | kupfer/plugin/dbusintrospect/find.py:108-112 | a path with an interface has an entry under its key (`/` for the root) that holds its path and its interfaces and wins over children; without one the result is just the children's |
| Introspect.KeysAreDeclaringVisits | kupfer/plugin/dbusintrospect/find.py:78-112 | a key is in the result iff some visited object declares an interface and is stored under that key; interface-less objects are still visited, so their descendants can appear |
| Introspect.FoundKeysAreDeclaringVisits | kupfer/plugin/dbusintrospect/find.py:78-81 | the children's merged keys are exactly those of the declaring objects visited below them |
| Introspect.RootChildKey | kupfer/plugin/dbusintrospect/find.py:80 | from the root, a child with any name `n` that declares an interface yields exactly the key `/n`, and no `//n` |
| Introspect.SingleInterfaceAtRoot | kupfer/plugin/dbusintrospect/find.py:83-112 | a root document with interface `org.X` and method `M(in s a)` yields exactly one entry, keyed and labelled `/` |

## Left out

- The D-Bus calls `get_object`, `ListNames`, `ListActivatableNames` and `Introspect` are foreign I/O. They are replaced by input sequences and by the `introspected` field of `<node>` elements.
- XML parsing with `minidom.parseString` is a foreign library. Documents arrive already parsed.
- Failures of the bus or the parser abort the walk in the source. They are not modelled: every introspection answer is assumed present and well formed.
- DOM node kinds other than elements, text and comments are not modelled. A processing instruction's `nodeName` is its target, which could equal a tag name.
- `__str__` and the message templates are left out. Presentation formatting is outside the core.
- The `__main__` demonstration block and the unused imports are plumbing.
- `BadBus` is never raised in this file. It appears only as an error kind.
- `str.lower` is modelled for ASCII letters only. Full Unicode case mapping is not modelled.
- Cyclic object trees cannot be expressed: the tree is a finite value. The source would recurse without end on one. For example, a `<node>` child of the root without a `name` attribute is introspected at `"/"` again, a cycle in the source; in the model it is an ordinary finite child.
- A `<node>` element's document is its own field, not a function of its path. Two elements that reach the same path can therefore carry different documents, while the service would answer both with the same one.
- Resolver.Uniquify: the order of the deduplicated names is not stated, because it is the key order of a dictionary. The model picks first-occurrence order, and no contract depends on it.
- Resolver.GetMatchingApplication: the order of the matches in the `InspecificApplication` message is stated only as some duplicate-free listing of all matches, for the same reason.
