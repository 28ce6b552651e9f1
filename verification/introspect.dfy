/**
 * The object-tree walk (`get_objects`): starting from an object path, read the
 * introspection document of that path, descend into every `<node>` child and
 * collect every `<interface>` into a map from object path to the interfaces
 * declared there.
 */
module Introspect {
  import opened Xml

  /** One `<arg>` of a method: its name, direction and type signature. */
  datatype Arg = Arg(name: string, direction: string, signature: string)

  /** A `<method>`: its name and its arguments in document order. */
  datatype MethodInfo = MethodInfo(name: string, args: seq<Arg>)

  /** An `<interface>`: its methods, signal names and property names, each in document order. */
  datatype InterfaceInfo = InterfaceInfo(methods: seq<MethodInfo>, signals: seq<string>, properties: seq<string>)

  /** The entry of one object path: `{"path": ..., "interfaces": ...}`. */
  datatype ObjectInfo = ObjectInfo(path: string, interfaces: map<string, InterfaceInfo>)

  // ---------------------------------------------------------------------------
  // Reading one interface

  /** `f` of every node of `xs` whose `nodeName` is `tag`, in document order. */
  function Pick<T>(xs: seq<XmlNode>, tag: string, f: XmlNode -> T): seq<T> {
    if xs == [] then []
    else
      var last := xs[|xs| - 1];
      Pick(xs[..|xs| - 1], tag, f) + (if NodeName(last) == tag then [f(last)] else [])
  }

  /** The `name` attribute of a node. */
  function NameOf(x: XmlNode): string {
    GetAttribute(x, "name")
  }

  /** The `(name, direction, type)` triple of an `<arg>`. */
  function ArgOf(x: XmlNode): Arg {
    Arg(GetAttribute(x, "name"), GetAttribute(x, "direction"), GetAttribute(x, "type"))
  }

  /** A `<method>`: its name and the triples of its `<arg>` children. */
  function MethodOf(x: XmlNode): MethodInfo {
    MethodInfo(NameOf(x), Pick(ChildNodes(x), "arg", ArgOf))
  }

  /** An `<interface>`: its `<method>`, `<signal>` and `<property>` children. */
  function InterfaceOf(x: XmlNode): InterfaceInfo {
    var children := ChildNodes(x);
    InterfaceInfo(Pick(children, "method", MethodOf), Pick(children, "signal", NameOf), Pick(children, "property", NameOf))
  }

  /** One more child extends a pick by that child's value, when it has the tag. */
  lemma PickStep<T>(xs: seq<XmlNode>, j: int, tag: string, f: XmlNode -> T)
    requires 0 <= j < |xs|
    ensures Pick(xs[..j + 1], tag, f) == Pick(xs[..j], tag, f) + (if NodeName(xs[j]) == tag then [f(xs[j])] else [])
  {
    assert xs[..j + 1][..j] == xs[..j];
  }

  /** Reading the arguments of a method: the loop that fills `margs`. */
  method ReadArgs(method_: XmlNode) returns (margs: seq<Arg>)
    ensures margs == Pick(ChildNodes(method_), "arg", ArgOf)
  {
    var children := ChildNodes(method_);
    margs := [];
    for k := 0 to |children|
      invariant margs == Pick(children[..k], "arg", ArgOf)
    {
      var argel := children[k];
      PickStep(children, k, "arg", ArgOf);
      if NodeName(argel) == "arg" {
        margs := margs + [Arg(GetAttribute(argel, "name"), GetAttribute(argel, "direction"), GetAttribute(argel, "type"))];
      }
    }
    assert children[..|children|] == children;
  }

  /** Reading one `<interface>` element: the loop that fills `methods`, `signals` and `properties`. */
  method ReadInterface(element: XmlNode) returns (iface: InterfaceInfo)
    ensures iface == InterfaceOf(element)
  {
    var children := ChildNodes(element);
    var methods: seq<MethodInfo> := [];
    var signals: seq<string> := [];
    var properties: seq<string> := [];
    for j := 0 to |children|
      invariant methods == Pick(children[..j], "method", MethodOf)
      invariant signals == Pick(children[..j], "signal", NameOf)
      invariant properties == Pick(children[..j], "property", NameOf)
    {
      var subel := children[j];
      PickStep(children, j, "method", MethodOf);
      PickStep(children, j, "signal", NameOf);
      PickStep(children, j, "property", NameOf);
      if NodeName(subel) == "method" {
        var mname := GetAttribute(subel, "name");
        var margs := ReadArgs(subel);
        methods := methods + [MethodInfo(mname, margs)];
      }
      if NodeName(subel) == "signal" {
        signals := signals + [GetAttribute(subel, "name")];
      }
      if NodeName(subel) == "property" {
        properties := properties + [GetAttribute(subel, "name")];
      }
    }
    assert children[..|children|] == children;
    iface := InterfaceInfo(methods, signals, properties);
  }

  // ---------------------------------------------------------------------------
  // Walking the object tree

  /** An element node with the given tag. */
  predicate IsTag(x: XmlNode, tag: string) {
    x.Element? && x.tagName == tag
  }

  /** The path of a child object: `cum_path + "/" + name`. */
  function ChildPath(cumPath: string, name: string): string {
    cumPath + "/" + name
  }

  /** The key (and `"path"` field) under which a path's own entry is stored: the root `""` is stored as `"/"`. */
  function KeyOf(cumPath: string): string {
    if cumPath == "" then "/" else cumPath
  }

  /** The `<interface>` element `x` is named `n`. */
  predicate DeclaresName(x: XmlNode, n: string) {
    IsTag(x, "interface") && NameOf(x) == n
  }

  /** The index of the last `<interface>` among `xs` named `n`, or -1 when there is none. */
  function LastDeclaration(xs: seq<XmlNode>, n: string): (r: int)
    ensures r == -1 <==> forall i :: 0 <= i < |xs| ==> !DeclaresName(xs[i], n)
    ensures r != -1 ==> 0 <= r < |xs| && DeclaresName(xs[r], n)
    ensures r != -1 ==> forall j :: r < j < |xs| ==> !DeclaresName(xs[j], n)
  {
    if xs == [] then -1
    else if DeclaresName(xs[|xs| - 1], n) then |xs| - 1
    else
      var r := LastDeclaration(xs[..|xs| - 1], n);
      assert forall i :: 0 <= i < |xs| - 1 ==> xs[..|xs| - 1][i] == xs[i];
      r
  }

  /** `subdict`: the interfaces declared among `xs`, keyed by name; a later declaration of a name replaces an earlier one. */
  function InterfacesIn(xs: seq<XmlNode>): map<string, InterfaceInfo> {
    if xs == [] then map[]
    else
      var last := xs[|xs| - 1];
      var m := InterfacesIn(xs[..|xs| - 1]);
      if IsTag(last, "interface") then m[NameOf(last) := InterfaceOf(last)] else m
  }

  /** The document declares at least one `<interface>` at its top level. */
  ghost predicate HasInterface(xs: seq<XmlNode>) {
    exists i :: 0 <= i < |xs| && IsTag(xs[i], "interface")
  }

  /**
   * The result of walking the object at `cumPath`, whose document has the child
   * nodes `document`: every entry is stored under its own `"path"`, which is
   * the path's own key or lies below `cumPath + "/"`.
   */
  function Objects(cumPath: string, document: seq<XmlNode>): (r: map<string, ObjectInfo>)
    ensures forall k :: k in r ==> r[k].path == k && (k == KeyOf(cumPath) || cumPath + "/" <= k)
    decreases document, 1
  {
    var found := FoundIn(cumPath, document);
    var subdict := InterfacesIn(document);
    if subdict == map[] then found
    else found[KeyOf(cumPath) := ObjectInfo(KeyOf(cumPath), subdict)]
  }

  /**
   * The walks of the `<node>` children among `xs`, merged left to right with
   * `update`: every entry is stored under its own `"path"`, below `cumPath + "/"`.
   */
  function FoundIn(cumPath: string, xs: seq<XmlNode>): (r: map<string, ObjectInfo>)
    ensures forall k :: k in r ==> r[k].path == k && cumPath + "/" <= k
    decreases xs, 0
  {
    if xs == [] then map[]
    else
      var last := xs[|xs| - 1];
      var sub := if IsTag(last, "node") then Objects(ChildPath(cumPath, NameOf(last)), last.introspected) else map[];
      ChildKeysUnder(cumPath, NameOf(last), sub.Keys);
      FoundIn(cumPath, xs[..|xs| - 1]) + sub
  }

  /** A key at or below a child path `cumPath + "/" + name` lies below `cumPath + "/"`. */
  lemma ChildKeysUnder(cumPath: string, name: string, keys: set<string>)
    requires forall k :: k in keys ==> k == KeyOf(ChildPath(cumPath, name)) || ChildPath(cumPath, name) + "/" <= k
    ensures forall k :: k in keys ==> cumPath + "/" <= k
  {
  }

  /**
   * `get_objects(bus, app, cum_path)`. The proxy, the `Introspect` call and the
   * parse are replaced by `document`, the child nodes of the parsed root.
   */
  method GetObjects(cumPath: string, document: seq<XmlNode>) returns (foundObjects: map<string, ObjectInfo>)
    ensures foundObjects == Objects(cumPath, document)
    decreases document
  {
    foundObjects := map[];
    var elements := Elements(document);
    var subdict: map<string, InterfaceInfo> := map[];
    for i := 0 to |elements|
      invariant foundObjects == FoundIn(cumPath, elements[..i])
      invariant subdict == InterfacesIn(elements[..i])
    {
      var element := elements[i];
      WalkStep(cumPath, elements, i);
      assert element in document;
      if element.tagName == "node" {
        var subpath := cumPath + "/" + GetAttribute(element, "name");
        var sub := GetObjects(subpath, element.introspected);
        foundObjects := foundObjects + sub;
      } else if element.tagName == "interface" {
        var iface := ReadInterface(element);
        subdict := subdict[GetAttribute(element, "name") := iface];
      }
    }
    assert elements[..|elements|] == elements;
    ElementsKeepChildWalks(cumPath, document);
    ElementsKeepInterfaces(document);
    if subdict != map[] {
      if cumPath == "" {
        foundObjects := foundObjects["/" := ObjectInfo("/", subdict)];
      } else {
        foundObjects := foundObjects[cumPath := ObjectInfo(cumPath, subdict)];
      }
    }
  }

  /** One more node of `xs` extends the child walks and `subdict` by that node's contribution. */
  lemma WalkStep(p: string, xs: seq<XmlNode>, i: int)
    requires 0 <= i < |xs|
    ensures FoundIn(p, xs[..i + 1]) == FoundIn(p, xs[..i])
      + (if IsTag(xs[i], "node") then Objects(ChildPath(p, NameOf(xs[i])), xs[i].introspected) else map[])
    ensures InterfacesIn(xs[..i + 1])
      == if IsTag(xs[i], "interface") then InterfacesIn(xs[..i])[NameOf(xs[i]) := InterfaceOf(xs[i])] else InterfacesIn(xs[..i])
  {
    assert xs[..i + 1][..i] == xs[..i];
  }

  // ---------------------------------------------------------------------------
  // Properties of reading

  /** Picking keeps document order: it distributes over concatenation. */
  lemma {:induction false} PickAppend<T>(xs: seq<XmlNode>, ys: seq<XmlNode>, tag: string, f: XmlNode -> T)
    ensures Pick(xs + ys, tag, f) == Pick(xs, tag, f) + Pick(ys, tag, f)
  {
    if ys == [] {
      assert xs + ys == xs;
    } else {
      var init := ys[..|ys| - 1];
      assert (xs + ys)[..|xs + ys| - 1] == xs + init;
      assert (xs + ys)[|xs + ys| - 1] == ys[|ys| - 1];
      PickAppend(xs, init, tag, f);
    }
  }

  /** Exactly the nodes with the tag are picked: every one of them, and nothing else. */
  lemma {:induction false} PickMembers<T>(xs: seq<XmlNode>, tag: string, f: XmlNode -> T, y: T)
    ensures y in Pick(xs, tag, f) <==> exists i :: 0 <= i < |xs| && NodeName(xs[i]) == tag && f(xs[i]) == y
  {
    if xs != [] {
      var init := xs[..|xs| - 1];
      PickMembers(init, tag, f, y);
      if y in Pick(init, tag, f) {
        var i :| 0 <= i < |init| && NodeName(init[i]) == tag && f(init[i]) == y;
        assert xs[i] == init[i];
      }
      if exists i :: 0 <= i < |xs| && NodeName(xs[i]) == tag && f(xs[i]) == y {
        var i :| 0 <= i < |xs| && NodeName(xs[i]) == tag && f(xs[i]) == y;
        if i < |init| {
          assert init[i] == xs[i];
        }
      }
    }
  }

  // ---------------------------------------------------------------------------
  // Properties of the walk

  /** Merging the interfaces of two parts of a document: the later part wins. */
  lemma {:induction false} InterfacesInAppend(a: seq<XmlNode>, b: seq<XmlNode>)
    ensures InterfacesIn(a + b) == InterfacesIn(a) + InterfacesIn(b)
  {
    if b == [] {
      assert a + b == a;
    } else {
      var init := b[..|b| - 1];
      var last := b[|b| - 1];
      assert (a + b)[..|a + b| - 1] == a + init;
      assert (a + b)[|a + b| - 1] == last;
      InterfacesInAppend(a, init);
    }
  }

  /** Merging the child walks of two parts of a document: on a shared key the later child wins. */
  lemma {:induction false} FoundInAppend(p: string, a: seq<XmlNode>, b: seq<XmlNode>)
    ensures FoundIn(p, a + b) == FoundIn(p, a) + FoundIn(p, b)
  {
    if b == [] {
      assert a + b == a;
    } else {
      var init := b[..|b| - 1];
      var last := b[|b| - 1];
      assert (a + b)[..|a + b| - 1] == a + init;
      assert (a + b)[|a + b| - 1] == last;
      FoundInAppend(p, a, init);
      var sub := if IsTag(last, "node") then Objects(ChildPath(p, NameOf(last)), last.introspected) else map[];
      assert FoundIn(p, a + b) == FoundIn(p, a + init) + sub;
      assert FoundIn(p, b) == FoundIn(p, init) + sub;
      MergeAssociative(FoundIn(p, a), FoundIn(p, init), sub);
    }
  }

  /** Filtering out the text and comment nodes first does not change the child walks. */
  lemma {:induction false} ElementsKeepChildWalks(p: string, xs: seq<XmlNode>)
    ensures FoundIn(p, Elements(xs)) == FoundIn(p, xs)
  {
    if xs != [] {
      var init := xs[..|xs| - 1];
      var last := xs[|xs| - 1];
      ElementsKeepChildWalks(p, init);
      assert xs == init + [last];
      assert [last][..0] == [];
      FoundInAppend(p, init, [last]);
      ElementsAppend(init, [last]);
      FoundInAppend(p, Elements(init), Elements([last]));
      if !last.Element? {
        assert FoundIn(p, [last]) == map[];
      }
    }
  }

  /** Filtering out the text and comment nodes first does not change `subdict`. */
  lemma {:induction false} ElementsKeepInterfaces(xs: seq<XmlNode>)
    ensures InterfacesIn(Elements(xs)) == InterfacesIn(xs)
  {
    if xs != [] {
      var init := xs[..|xs| - 1];
      var last := xs[|xs| - 1];
      ElementsKeepInterfaces(init);
      assert xs == init + [last];
      assert [last][..0] == [];
      InterfacesInAppend(init, [last]);
      ElementsAppend(init, [last]);
      InterfacesInAppend(Elements(init), Elements([last]));
      if !last.Element? {
        assert InterfacesIn([last]) == map[];
      }
    }
  }

  /** A top-level node that is neither `<node>` nor `<interface>` has no effect on the result. */
  lemma IgnoredNodeHasNoEffect(p: string, a: seq<XmlNode>, x: XmlNode, b: seq<XmlNode>)
    requires !IsTag(x, "node") && !IsTag(x, "interface")
    ensures Objects(p, a + [x] + b) == Objects(p, a + b)
  {
    assert [x][..0] == [];
    assert FoundIn(p, [x]) == map[];
    assert InterfacesIn([x]) == map[];
    FoundInAppend(p, a, [x]);
    InterfacesInAppend(a, [x]);
    assert FoundIn(p, a + [x]) == FoundIn(p, a);
    assert InterfacesIn(a + [x]) == InterfacesIn(a);
    FoundInAppend(p, a + [x], b);
    FoundInAppend(p, a, b);
    InterfacesInAppend(a + [x], b);
    InterfacesInAppend(a, b);
  }

  /**
   * `subdict` is keyed by exactly the declared interface names, and each name
   * maps to the contents of its last declaration.
   */
  lemma {:induction false} InterfacesInByName(xs: seq<XmlNode>)
    ensures forall n :: n in InterfacesIn(xs) <==> LastDeclaration(xs, n) != -1
    ensures forall n :: n in InterfacesIn(xs) ==> InterfacesIn(xs)[n] == InterfaceOf(xs[LastDeclaration(xs, n)])
  {
    if xs != [] {
      var init := xs[..|xs| - 1];
      InterfacesInByName(init);
      assert forall n :: LastDeclaration(init, n) != -1 ==> xs[LastDeclaration(init, n)] == init[LastDeclaration(init, n)];
    }
  }

  /** `subdict` is non-empty exactly when the document declares an interface. */
  lemma {:induction false} InterfacesInNonEmpty(xs: seq<XmlNode>)
    ensures InterfacesIn(xs) != map[] <==> HasInterface(xs)
  {
    if xs != [] {
      var init := xs[..|xs| - 1];
      var last := xs[|xs| - 1];
      InterfacesInNonEmpty(init);
      if IsTag(last, "interface") {
        assert NameOf(last) in InterfacesIn(xs);
      } else {
        if HasInterface(xs) {
          var i :| 0 <= i < |xs| && IsTag(xs[i], "interface");
          assert init[i] == xs[i];
        }
        if HasInterface(init) {
          var i :| 0 <= i < |init| && IsTag(init[i], "interface");
          assert xs[i] == init[i];
        }
      }
    }
  }

  /**
   * A path's own entry: present, labelled with its key and holding exactly its
   * own interfaces when it declares one (it is stored after the children, so it
   * wins over theirs); absent, leaving only the children's entries, otherwise.
   */
  lemma OwnEntry(p: string, document: seq<XmlNode>)
    ensures HasInterface(document) ==>
      KeyOf(p) in Objects(p, document) && Objects(p, document)[KeyOf(p)] == ObjectInfo(KeyOf(p), InterfacesIn(document))
    ensures !HasInterface(document) ==> Objects(p, document) == FoundIn(p, document)
  {
    InterfacesInNonEmpty(document);
  }

  /** Merging maps with `update` is associative. */
  lemma MergeAssociative<K, V>(x: map<K, V>, y: map<K, V>, z: map<K, V>)
    ensures x + y + z == x + (y + z)
  {
  }

  /** The objects a walk from `cumPath` visits, each with the child nodes of its own document. */
  ghost function Visits(cumPath: string, document: seq<XmlNode>): set<(string, seq<XmlNode>)>
    decreases document, 1
  {
    {(cumPath, document)} + VisitsIn(cumPath, document)
  }

  /** The objects visited below the `<node>` children among `xs`. */
  ghost function VisitsIn(cumPath: string, xs: seq<XmlNode>): set<(string, seq<XmlNode>)>
    decreases xs, 0
  {
    if xs == [] then {}
    else
      var last := xs[|xs| - 1];
      VisitsIn(cumPath, xs[..|xs| - 1])
      + (if IsTag(last, "node") then Visits(ChildPath(cumPath, NameOf(last)), last.introspected) else {})
  }

  /** The visited object `v` declares an interface and is stored under key `k`. */
  ghost predicate Declares(v: (string, seq<XmlNode>), k: string) {
    KeyOf(v.0) == k && HasInterface(v.1)
  }

  /**
   * The key set of the result is exactly the keys of the visited objects that
   * declare an interface; objects without one are still visited, so their
   * descendants can appear.
   */
  lemma {:induction false} KeysAreDeclaringVisits(p: string, document: seq<XmlNode>, k: string)
    ensures k in Objects(p, document) <==> exists v :: v in Visits(p, document) && Declares(v, k)
    decreases document, 1
  {
    InterfacesInNonEmpty(document);
    FoundKeysAreDeclaringVisits(p, document, k);
    if k in Objects(p, document) && k !in FoundIn(p, document) {
      assert Declares((p, document), k);
    }
  }

  /** The keys of the child walks of `xs` are the keys of the declaring objects visited below them. */
  lemma {:induction false} FoundKeysAreDeclaringVisits(p: string, xs: seq<XmlNode>, k: string)
    ensures k in FoundIn(p, xs) <==> exists v :: v in VisitsIn(p, xs) && Declares(v, k)
    decreases xs, 0
  {
    if xs != [] {
      var last := xs[|xs| - 1];
      FoundKeysAreDeclaringVisits(p, xs[..|xs| - 1], k);
      if IsTag(last, "node") {
        KeysAreDeclaringVisits(ChildPath(p, NameOf(last)), last.introspected, k);
      }
    }
  }

  // ---------------------------------------------------------------------------
  // Examples

  /** A child `n` of the root that declares an interface is stored as `/n`, not `//n`. */
  lemma RootChildKey(n: string, iface: XmlNode)
    requires IsTag(iface, "interface")
    ensures Objects("", [Element("node", map["name" := n], [], [iface])]).Keys == {"/" + n}
  {
    var child := Element("node", map["name" := n], [], [iface]);
    var c := ChildPath("", NameOf(child));
    assert [child][..0] == [];
    assert [iface][..0] == [];
    assert c == "/" + n;
    assert KeyOf(c) == c;
    assert InterfacesIn([child]) == map[];
    assert FoundIn(c, [iface]) == map[];
    assert NameOf(iface) in InterfacesIn([iface]);
    assert Objects(c, [iface]).Keys == {c};
    assert FoundIn("", [child]) == Objects(c, [iface]);
  }

  /**
   * A root document with one interface `org.X` holding one method `M(in s a)`
   * yields a single entry, keyed and labelled `/`.
   */
  lemma SingleInterfaceAtRoot()
    ensures Objects("", [Element("interface", map["name" := "org.X"], [Element("method", map["name" := "M"],
              [Element("arg", map["name" := "a", "direction" := "in", "type" := "s"], [], [])], [])], [])])
      == map["/" := ObjectInfo("/", map["org.X" := InterfaceInfo([MethodInfo("M", [Arg("a", "in", "s")])], [], [])])]
  {
    var arg := Element("arg", map["name" := "a", "direction" := "in", "type" := "s"], [], []);
    var method_ := Element("method", map["name" := "M"], [arg], []);
    var iface := Element("interface", map["name" := "org.X"], [method_], []);
    assert [arg][..0] == [] && [method_][..0] == [] && [iface][..0] == [];
    assert ArgOf(arg) == Arg("a", "in", "s");
    assert Pick([arg], "arg", ArgOf) == [Arg("a", "in", "s")];
    assert NameOf(method_) == "M";
    assert MethodOf(method_) == MethodInfo("M", [Arg("a", "in", "s")]);
    assert Pick([method_], "method", MethodOf) == [MethodInfo("M", [Arg("a", "in", "s")])];
    assert NodeName(method_) != "signal" by { assert NodeName(method_)[0] == 'm'; }
    assert NodeName(method_) != "property" by { assert NodeName(method_)[0] == 'm'; }
    assert Pick([method_], "signal", NameOf) == [];
    assert Pick([method_], "property", NameOf) == Pick([], "property", NameOf) == [];
    assert InterfaceOf(iface) == InterfaceInfo([MethodInfo("M", [Arg("a", "in", "s")])], [], []);
    assert FoundIn("", [iface]) == map[];
    assert NameOf(iface) == "org.X";
    assert InterfacesIn([iface]) == map["org.X" := InterfaceOf(iface)];
    assert KeyOf("") == "/";
    assert "org.X" in InterfacesIn([iface]);
    assert Objects("", [iface]) == map["/" := ObjectInfo("/", map["org.X" := InterfaceInfo([MethodInfo("M", [Arg("a", "in", "s")])], [], [])])];
  }
}
