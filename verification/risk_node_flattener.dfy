/** The custom flattening plugin for `<risks>` nodes of a pricing-request document.

    A `<risks>` node holds one child element per risk atom.  Instead of flattening the
    node attribute by attribute, the plugin emits exactly one (key, value) pair per
    child, whose key is built from a fixed template chosen by the child's kind:

      value    ->  [prefix.]value-<ccy>
      fxdelta  ->  [prefix.]fxdelta-<ccy>
      fxvega   ->  [prefix.]fxvega-<ccyPair>-<expiry>-<ccy>

    An absent dimension attribute is written as the literal "missing"; the `value`
    attribute becomes a decimal when it parses and stays text otherwise.  A child of an
    unknown kind, or one without a `value` attribute, stops the whole flattening. */
module RiskNodeFlattener {
  import opened Wrappers
  import opened Text
  import opened Decimals
  import opened XmlModel
  import opened Traversal

  /** The value emitted for one risk atom. */
  datatype FlatValue = Dec(d: Decimal) | Str(s: string)

  /** One flattened (key, value) pair. */
  type Entry = (string, FlatValue)

  /** The three kinds of risk atom the plugin knows. */
  datatype RiskKind = ValueRisk | FxDelta | FxVega

  /** Why flattening stopped. */
  datatype FlattenError =
      /** The object handed over is not an XML node, so the cast to a node fails. */
    | NotAnXmlNode
      /** The child has no `value` attribute (or no attribute collection at all, as for
          a comment), so reading the attribute's text dereferences null. */
    | MissingValueAttribute(child: string)
      /** The child's lower-cased name is none of the three kinds; carries the name as
          written. */
    | UnknownRiskKind(child: string)

  /** The text written in place of an absent dimension attribute. */
  const Sentinel: string := "missing"

  /** The attributes the plugin reads from a child. */
  const ReadAttributes: set<string> := {"value", "ccy", "ccyPair", "expiry"}

  /** The attributes that make up the dimensions of a key. */
  const DimensionAttributes: set<string> := {"ccy", "ccyPair", "expiry"}

  // ---------------------------------------------------------------------------
  // Claim predicate
  // ---------------------------------------------------------------------------

  /** Whether the plugin claims `obj`: it must be an XML node named exactly "risks".
      The prefix plays no part. */
  function CanHandle(prefix: Option<string>, obj: HostObject): (claimed: bool)
    ensures claimed ==> obj.XmlNode?
  {
    match obj
    case OtherObject => false
    case XmlNode(node) => node.name == "risks"
  }

  // ---------------------------------------------------------------------------
  // Kind dispatch
  // ---------------------------------------------------------------------------

  /** The lower-case name of each kind, which is also its key's leading word. */
  function KindName(kind: RiskKind): string
  {
    match kind
    case ValueRisk => "value"
    case FxDelta => "fxdelta"
    case FxVega => "fxvega"
  }

  /** The kind a child's name selects, compared after lower-casing the name. */
  function KindOf(name: string): Option<RiskKind>
  {
    var lowered := ToLower(name);
    if lowered == "value" then Some(ValueRisk)
    else if lowered == "fxdelta" then Some(FxDelta)
    else if lowered == "fxvega" then Some(FxVega)
    else None
  }

  // ---------------------------------------------------------------------------
  // Key templating
  // ---------------------------------------------------------------------------

  /** What goes in front of every key: nothing for a null or empty prefix, otherwise
      the prefix followed by a dot. */
  function KeyHead(prefix: Option<string>): string
  {
    match prefix
    case None => ""
    case Some(p) => if p == "" then "" else p + "."
  }

  /** The text of a dimension attribute, or the sentinel when the attribute is absent.
      A present but empty attribute gives the empty text. */
  function Dimension(attrs: map<string, string>, name: string): string
  {
    if name in attrs then attrs[name] else Sentinel
  }

  /** The dimensions that identify a risk atom of the given kind, in key order. */
  function Dimensions(kind: RiskKind, attrs: map<string, string>): seq<string>
  {
    match kind
    case ValueRisk => [Dimension(attrs, "ccy")]
    case FxDelta => [Dimension(attrs, "ccy")]
    case FxVega => [Dimension(attrs, "ccyPair"), Dimension(attrs, "expiry"), Dimension(attrs, "ccy")]
  }

  /** The key of a risk atom after its head, by the kind's template:
      `value-<ccy>`, `fxdelta-<ccy>` or `fxvega-<ccyPair>-<expiry>-<ccy>`. */
  function KeyBody(kind: RiskKind, attrs: map<string, string>): string
  {
    match kind
    case ValueRisk => KindName(kind) + "-" + Dimension(attrs, "ccy")
    case FxDelta => KindName(kind) + "-" + Dimension(attrs, "ccy")
    case FxVega =>
      KindName(kind) + "-" + Dimension(attrs, "ccyPair") + "-" + Dimension(attrs, "expiry")
        + "-" + Dimension(attrs, "ccy")
  }

  /** The key of a risk atom: the head, then the kind's template. */
  function KeyFor(prefix: Option<string>, kind: RiskKind, attrs: map<string, string>): string
  {
    KeyHead(prefix) + KeyBody(kind, attrs)
  }

  // ---------------------------------------------------------------------------
  // Value typing
  // ---------------------------------------------------------------------------

  /** The value emitted for the text of a `value` attribute: a decimal when the text
      is non-empty and parses, the text itself otherwise. */
  function TypedValue(raw: string): (v: FlatValue)
    ensures v.Dec? <==> raw != "" && ParseDecimal(raw).Some?
    ensures v.Dec? ==> ParseDecimal(raw) == Some(v.d)
    ensures v.Str? ==> v.s == raw
    ensures forall d :: raw == FormatDecimal(d) ==> v == Dec(d)
    ensures v.Dec? ==> forall i :: 0 <= i < |raw| ==>
      IsDigit(raw[i]) || raw[i] == '.' || (i == 0 && (raw[i] == '-' || raw[i] == '+'))
  {
    FormattedTextParses(raw);
    if raw != "" && ParseDecimal(raw).Some? then
      ParsedTextIsNumeric(raw);
      Dec(ParseDecimal(raw).value)
    else
      Str(raw)
  }

  // ---------------------------------------------------------------------------
  // Flattening
  // ---------------------------------------------------------------------------

  /** The pair emitted for one child of the risks node.  The `value` attribute is read
      before the kind is looked at, so a child without it fails that way whatever its
      name; only dimension attributes may be absent. */
  function FlattenChild(prefix: Option<string>, child: Node): Result<Entry, FlattenError>
  {
    if "value" !in child.attrs then
      Failure(MissingValueAttribute(child.name))
    else
      match KindOf(child.name)
      case None => Failure(UnknownRiskKind(child.name))
      case Some(kind) => Success((KeyFor(prefix, kind, child.attrs), TypedValue(child.attrs["value"])))
  }

  /** The per-child step under a given prefix. */
  function ChildStep(prefix: Option<string>): Node -> Result<Entry, FlattenError>
  {
    child => FlattenChild(prefix, child)
  }

  /** The pairs of `children`, in order, or the error of the first child that fails. */
  function FlattenChildren(prefix: Option<string>, children: seq<Node>): Result<seq<Entry>, FlattenError>
  {
    MapResult(children, ChildStep(prefix))
  }

  /** The whole flattening of `obj` as one result: every pair, or the error that
      stopped the enumeration. */
  function FlattenObject(prefix: Option<string>, obj: HostObject): Result<seq<Entry>, FlattenError>
  {
    match obj
    case OtherObject => Failure(NotAnXmlNode)
    case XmlNode(riskNode) => FlattenChildren(prefix, riskNode.children)
  }

  /** The enumeration as the caller observes it: the pairs yielded one child at a time,
      and the error, if any, raised when the enumeration reached the failing child.  The
      pairs yielded before a failure are those of the children preceding it. */
  method EnumerateRisks(prefix: Option<string>, riskNode: Node)
    returns (yielded: seq<Entry>, failure: Option<FlattenError>)
    ensures failure.None? ==> |yielded| == |riskNode.children|
    ensures failure.Some? ==> |yielded| < |riskNode.children|
    ensures forall i :: 0 <= i < |yielded| ==> FlattenChild(prefix, riskNode.children[i]) == Success(yielded[i])
    ensures failure.Some? ==> FlattenChild(prefix, riskNode.children[|yielded|]) == Failure(failure.value)
    ensures failure.None? ==> FlattenObject(prefix, XmlNode(riskNode)) == Success(yielded)
    ensures failure.Some? ==> FlattenObject(prefix, XmlNode(riskNode)) == Failure(failure.value)
  {
    var children := riskNode.children;
    yielded := [];
    var i := 0;
    while i < |children|
      invariant 0 <= i <= |children|
      invariant |yielded| == i
      invariant forall j :: 0 <= j < i ==> FlattenChild(prefix, children[j]) == Success(yielded[j])
    {
      var outcome := FlattenChild(prefix, children[i]);
      if outcome.Failure? {
        FirstChildFailureStops(prefix, children, i);
        return yielded, Some(outcome.error);
      }
      ghost var before := yielded;
      yielded := yielded + [outcome.value];
      assert forall j :: 0 <= j < i ==> yielded[j] == before[j];
      assert yielded[i] == outcome.value;
      i := i + 1;
    }
    AllChildrenFlatten(prefix, children, yielded);
    failure := None;
  }

  // ---------------------------------------------------------------------------
  // Lemmas: whole-call result versus the children one by one
  // ---------------------------------------------------------------------------

  /** Flattening succeeds exactly when every child does; it then yields exactly one
      pair per child, in child order. */
  lemma FlattenChildrenPointwise(prefix: Option<string>, children: seq<Node>)
    ensures FlattenChildren(prefix, children).Success? <==>
      forall i :: 0 <= i < |children| ==> FlattenChild(prefix, children[i]).Success?
    ensures FlattenChildren(prefix, children).Success? ==>
      && |FlattenChildren(prefix, children).value| == |children|
      && forall i :: 0 <= i < |children| ==>
           FlattenChildren(prefix, children).value[i] == FlattenChild(prefix, children[i]).value
  {
    MapResultPointwise(children, ChildStep(prefix));
  }

  /** Pairs matching the children one by one make up the whole result. */
  lemma AllChildrenFlatten(prefix: Option<string>, children: seq<Node>, entries: seq<Entry>)
    requires |entries| == |children|
    requires forall i :: 0 <= i < |children| ==> FlattenChild(prefix, children[i]) == Success(entries[i])
    ensures FlattenChildren(prefix, children) == Success(entries)
  {
    AllStepsSucceed(children, ChildStep(prefix), entries);
  }

  /** Two children that flatten give their two pairs, in order. */
  lemma TwoChildrenFlatten(prefix: Option<string>, c0: Node, c1: Node, e0: Entry, e1: Entry)
    requires FlattenChild(prefix, c0) == Success(e0) && FlattenChild(prefix, c1) == Success(e1)
    ensures FlattenChildren(prefix, [c0, c1]) == Success([e0, e1])
  {
    AllChildrenFlatten(prefix, [c0, c1], [e0, e1]);
  }

  /** The first failing child decides the error of the whole call. */
  lemma FirstChildFailureStops(prefix: Option<string>, children: seq<Node>, k: nat)
    requires k < |children|
    requires forall j :: 0 <= j < k ==> FlattenChild(prefix, children[j]).Success?
    requires FlattenChild(prefix, children[k]).Failure?
    ensures FlattenChildren(prefix, children) == Failure(FlattenChild(prefix, children[k]).error)
  {
    FirstFailureStops(children, ChildStep(prefix), k);
  }

  /** A failed call names the first failing child: every child before it flattens. */
  lemma FailedChildIsFirst(prefix: Option<string>, children: seq<Node>) returns (k: nat)
    requires FlattenChildren(prefix, children).Failure?
    ensures k < |children|
    ensures forall j :: 0 <= j < k ==> FlattenChild(prefix, children[j]).Success?
    ensures FlattenChild(prefix, children[k]) == Failure(FlattenChildren(prefix, children).error)
  {
    k := FailureHasFirstCause(children, ChildStep(prefix));
  }

  /** A child with no attributes at all, such as a comment or a text node, stops the
      flattening once it is reached, and the error names it. */
  lemma AttributelessChildStops(prefix: Option<string>, riskNode: Node, k: nat)
    requires k < |riskNode.children|
    requires forall j :: 0 <= j < k ==> FlattenChild(prefix, riskNode.children[j]).Success?
    requires riskNode.children[k].attrs == map[]
    ensures FlattenObject(prefix, XmlNode(riskNode)) == Failure(MissingValueAttribute(riskNode.children[k].name))
  {
    FirstChildFailureStops(prefix, riskNode.children, k);
  }

  /** On success, the result of flattening a node is one pair per child, in order,
      each keyed by the child's kind template and valued by its `value` attribute. */
  lemma FlattenObjectEntries(prefix: Option<string>, riskNode: Node)
    requires FlattenObject(prefix, XmlNode(riskNode)).Success?
    ensures var out := FlattenObject(prefix, XmlNode(riskNode)).value;
      && |out| == |riskNode.children|
      && forall i :: 0 <= i < |out| ==>
           var child := riskNode.children[i];
           && "value" in child.attrs
           && KindOf(child.name).Some?
           && out[i] == (KeyFor(prefix, KindOf(child.name).value, child.attrs), TypedValue(child.attrs["value"]))
  {
    FlattenChildrenPointwise(prefix, riskNode.children);
  }

  // ---------------------------------------------------------------------------
  // Lemmas: the claim predicate
  // ---------------------------------------------------------------------------

  /** The claim is made on the exact, case-sensitive name "risks", for any prefix:
      a node named "Risks" is not claimed. */
  lemma CanHandleExactName(prefix: Option<string>, node: Node)
    ensures CanHandle(prefix, XmlNode(node)) <==> node.name == "risks"
    ensures !CanHandle(prefix, OtherObject)
    ensures !CanHandle(prefix, XmlNode(Node("Risks", node.attrs, node.children)))
  {
    assert "Risks" != "risks" by {
      assert "Risks"[0] != "risks"[0];
    }
  }

  /** Whatever the plugin claims it can take apart without a cast failure; anything
      that is not an XML node fails the cast. */
  lemma ClaimedObjectsAreNodes(prefix: Option<string>, obj: HostObject)
    ensures CanHandle(prefix, obj) ==>
      FlattenObject(prefix, obj).Success? || FlattenObject(prefix, obj).error != NotAnXmlNode
    ensures !obj.XmlNode? ==> FlattenObject(prefix, obj) == Failure(NotAnXmlNode)
  {
    if CanHandle(prefix, obj) && FlattenObject(prefix, obj).Failure? {
      var k := FailedChildIsFirst(prefix, obj.node.children);
    }
  }

  // ---------------------------------------------------------------------------
  // Lemmas: dispatch and keys
  // ---------------------------------------------------------------------------

  /** A name selects the kind whose name is its lower-cased form, and no kind when
      its lower-cased form is none of the three names. */
  lemma KindOfReadsLoweredName(name: string)
    ensures KindOf(name).Some? ==> KindName(KindOf(name).value) == ToLower(name)
    ensures KindOf(name).None? ==> forall kind: RiskKind :: KindName(kind) != ToLower(name)
  {
  }

  /** A child flattens exactly when it has a `value` attribute and its lower-cased
      name is one of the three kinds; a missing `value` attribute is reported first,
      whatever the name, and otherwise the unknown name is reported as written.  Only
      the `value` attribute is required: dimension attributes may all be absent. */
  lemma ChildOutcome(prefix: Option<string>, child: Node)
    ensures FlattenChild(prefix, child).Success? <==>
      "value" in child.attrs && exists kind: RiskKind :: KindName(kind) == ToLower(child.name)
    ensures "value" !in child.attrs ==> FlattenChild(prefix, child) == Failure(MissingValueAttribute(child.name))
    ensures "value" in child.attrs && FlattenChild(prefix, child).Failure? ==>
      FlattenChild(prefix, child) == Failure(UnknownRiskKind(child.name))
    ensures FlattenChild(prefix, child).Success? ==>
      FlattenChild(prefix, child).value.1 == TypedValue(child.attrs["value"])
  {
    KindOfReadsLoweredName(child.name);
  }

  /** Names that agree after lower-casing select the same kind, and a name selects a
      kind exactly when its lower-cased form is that kind's name. */
  lemma DispatchIgnoresCase(a: string, b: string, kind: RiskKind)
    ensures ToLower(a) == ToLower(b) ==> KindOf(a) == KindOf(b)
    ensures KindOf(a) == Some(kind) <==> ToLower(a) == KindName(kind)
    ensures KindOf(ToLower(a)) == KindOf(a)
  {
    ToLowerIdempotent(a);
  }

  /** Every template starts with the kind's name and a dash. */
  lemma BodyStartsWithKindName(kind: RiskKind, attrs: map<string, string>)
    ensures KindName(kind) + "-" <= KeyBody(kind, attrs)
  {
    var w := KindName(kind) + "-";
    var body := KeyBody(kind, attrs);
    KeyBodyIsJoin(kind, attrs);
    JoinCons(KindName(kind), Dimensions(kind, attrs), '-');
    assert ([KindName(kind)] + Dimensions(kind, attrs))[1..] == Dimensions(kind, attrs);
    assert body == w + Join(Dimensions(kind, attrs), '-');
    assert body[..|w|] == w;
  }

  /** A null or empty prefix gives keys that start with the kind's name and a dash,
      so never with a dot; any other prefix is followed by a dot and then the kind's
      name and a dash. */
  lemma KeyPrefixRule(prefix: Option<string>, kind: RiskKind, attrs: map<string, string>)
    ensures prefix.None? || prefix.value == "" ==>
      KindName(kind) + "-" <= KeyFor(prefix, kind, attrs) && KeyFor(prefix, kind, attrs)[0] != '.'
    ensures prefix.Some? && prefix.value != "" ==>
      prefix.value + "." + KindName(kind) + "-" <= KeyFor(prefix, kind, attrs)
  {
    var w := KindName(kind) + "-";
    var body := KeyBody(kind, attrs);
    BodyStartsWithKindName(kind, attrs);
    assert body[..|w|] == w;
    if prefix.Some? && prefix.value != "" {
      var p := prefix.value;
      var key := p + "." + body;
      assert KeyFor(prefix, kind, attrs) == key;
      assert key[..|p| + 1 + |w|] == p + "." + w;
      AppendAssoc(p + ".", KindName(kind), "-");
    } else {
      assert KeyFor(prefix, kind, attrs) == body;
      assert body[0] == w[0];
    }
  }

  /** Every template is the kind's name and the kind's dimensions, joined by dashes. */
  lemma KeyBodyIsJoin(kind: RiskKind, attrs: map<string, string>)
    ensures KeyBody(kind, attrs) == Join([KindName(kind)] + Dimensions(kind, attrs), '-')
  {
    var name := KindName(kind);
    var pair, expiry, ccy := Dimension(attrs, "ccyPair"), Dimension(attrs, "expiry"), Dimension(attrs, "ccy");
    if kind == FxVega {
      assert [name] + Dimensions(kind, attrs) == [name, pair, expiry, ccy];
      JoinFour(name, pair, expiry, ccy, '-');
    } else {
      assert [name] + Dimensions(kind, attrs) == [name, ccy];
      JoinTwo(name, ccy, '-');
    }
  }

  /** Splitting the part of a key after its head at the dashes gives back the kind's
      name and the dimensions (with "missing" for absent ones), as long as no
      dimension text itself contains a dash. */
  lemma KeyRecoversDimensions(prefix: Option<string>, kind: RiskKind, attrs: map<string, string>)
    requires forall name :: name in attrs && name in DimensionAttributes ==> NoSep(attrs[name], '-')
    ensures var key := KeyFor(prefix, kind, attrs);
      && KeyHead(prefix) <= key
      && Split(key[|KeyHead(prefix)|..], '-') == [KindName(kind)] + Dimensions(kind, attrs)
  {
    var parts := [KindName(kind)] + Dimensions(kind, attrs);
    var key := KeyFor(prefix, kind, attrs);
    KeyBodyIsJoin(kind, attrs);
    assert key[|KeyHead(prefix)|..] == Join(parts, '-');
    assert forall i :: 0 <= i < |parts| ==> NoSep(parts[i], '-') by {
      assert NoSep(Sentinel, '-');
      assert NoSep(KindName(kind), '-');
      assert "ccy" in DimensionAttributes && "ccyPair" in DimensionAttributes;
      assert "expiry" in DimensionAttributes;
    }
    SplitJoin(parts, '-');
  }

  /** The names of two different kinds differ in their first or their third letter. */
  lemma KindNamesDiffer(k1: RiskKind, k2: RiskKind)
    ensures |KindName(k1)| > 2 && |KindName(k2)| > 2
    ensures k1 != k2 ==> KindName(k1)[0] != KindName(k2)[0] || KindName(k1)[2] != KindName(k2)[2]
  {
  }

  /** Keys of different kinds never coincide, whatever the attributes: the kind can be
      read back from the key. */
  lemma KeyDeterminesKind(prefix: Option<string>, k1: RiskKind, a1: map<string, string>,
                          k2: RiskKind, a2: map<string, string>)
    requires KeyFor(prefix, k1, a1) == KeyFor(prefix, k2, a2)
    ensures k1 == k2
  {
    var head := KeyHead(prefix);
    var b1, b2 := KeyBody(k1, a1), KeyBody(k2, a2);
    assert b1 == b2 by {
      assert b1 == (head + b1)[|head|..];
      assert b2 == (head + b2)[|head|..];
    }
    BodyStartsWithKindName(k1, a1);
    BodyStartsWithKindName(k2, a2);
    KindNamesDiffer(k1, k2);
    var w1, w2 := KindName(k1) + "-", KindName(k2) + "-";
    assert b1[0] == w1[0] == KindName(k1)[0] && b1[2] == w1[2] == KindName(k1)[2];
    assert b2[0] == w2[0] == KindName(k2)[0] && b2[2] == w2[2] == KindName(k2)[2];
  }

  /** The templates that use only the currency tell the currency back: equal keys of
      such a kind mean equal currency texts, absent currencies counting as "missing". */
  lemma CcyKeyIsInjective(prefix: Option<string>, kind: RiskKind, a1: map<string, string>, a2: map<string, string>)
    requires kind != FxVega
    requires KeyFor(prefix, kind, a1) == KeyFor(prefix, kind, a2)
    ensures Dimension(a1, "ccy") == Dimension(a2, "ccy")
  {
    var head := KeyHead(prefix);
    var w := KindName(kind) + "-";
    var b1, b2 := KeyBody(kind, a1), KeyBody(kind, a2);
    assert b1 == KeyFor(prefix, kind, a1)[|head|..] == b2;
    assert b1 == w + Dimension(a1, "ccy");
    assert b2 == w + Dimension(a2, "ccy");
    assert b1[|w|..] == Dimension(a1, "ccy");
    assert b2[|w|..] == Dimension(a2, "ccy");
  }

  /** Absent dimension attributes never make a child fail: a child that has a `value`
      attribute and a known kind flattens, its key is the kind's name and its
      dimensions joined by dashes, and each absent dimension, on its own, is written
      as "missing" in its position. */
  lemma AbsentDimensionsUseSentinel(prefix: Option<string>, child: Node)
    requires "value" in child.attrs && KindOf(child.name).Some?
    ensures FlattenChild(prefix, child).Success?
    ensures var kind := KindOf(child.name).value;
      var dims := Dimensions(kind, child.attrs);
      && FlattenChild(prefix, child).value.0 == KeyHead(prefix) + Join([KindName(kind)] + dims, '-')
      && ("ccy" !in child.attrs ==> dims[|dims| - 1] == Sentinel)
      && (kind == FxVega && "ccyPair" !in child.attrs ==> dims[0] == Sentinel)
      && (kind == FxVega && "expiry" !in child.attrs ==> dims[1] == Sentinel)
  {
    KeyBodyIsJoin(KindOf(child.name).value, child.attrs);
  }

  // ---------------------------------------------------------------------------
  // Lemmas: value typing
  // ---------------------------------------------------------------------------

  /** A number written the way a decimal prints comes back as that decimal, scale
      included. */
  lemma DecimalTextIsTyped(d: Decimal)
    ensures TypedValue(FormatDecimal(d)) == Dec(d)
  {
    FormatThenParse(d);
  }

  /** An empty `value` attribute is kept as the empty text, and text that does not
      parse is kept verbatim. */
  lemma NonNumericTextIsKept(raw: string)
    requires raw == "" || ParseDecimal(raw).None?
    ensures TypedValue(raw) == Str(raw)
  {
  }

  // ---------------------------------------------------------------------------
  // Lemmas: what the output depends on
  // ---------------------------------------------------------------------------

  /** The part of a child the plugin reads: its name and the four attributes. */
  function Relevant(child: Node): (string, map<string, string>)
  {
    (child.name, map name | name in child.attrs && name in ReadAttributes :: child.attrs[name])
  }

  /** Children that agree on their name and the four read attributes flatten alike;
      other attributes and grandchildren never matter. */
  lemma ChildDependsOnReadAttributes(prefix: Option<string>, c1: Node, c2: Node)
    requires Relevant(c1) == Relevant(c2)
    ensures FlattenChild(prefix, c1) == FlattenChild(prefix, c2)
  {
    var m1, m2 := Relevant(c1).1, Relevant(c2).1;
    forall name | name in ReadAttributes
      ensures (name in c1.attrs <==> name in c2.attrs)
      ensures name in c1.attrs ==> c1.attrs[name] == c2.attrs[name]
    {
      assert name in c1.attrs <==> name in m1;
      assert name in c2.attrs <==> name in m2;
      if name in c1.attrs {
        assert m1[name] == c1.attrs[name];
        assert m2[name] == c2.attrs[name];
      }
    }
    assert "value" in ReadAttributes && "ccy" in ReadAttributes;
    assert "ccyPair" in ReadAttributes && "expiry" in ReadAttributes;
    assert forall kind :: Dimensions(kind, c1.attrs) == Dimensions(kind, c2.attrs);
  }

  /** Nodes whose children agree one by one on their names and read attributes
      flatten to the same result; the node's own name, its attributes and its
      grandchildren play no part. */
  lemma FlattenDependsOnReadAttributes(prefix: Option<string>, n1: Node, n2: Node)
    requires |n1.children| == |n2.children|
    requires forall i :: 0 <= i < |n1.children| ==> Relevant(n1.children[i]) == Relevant(n2.children[i])
    ensures FlattenObject(prefix, XmlNode(n1)) == FlattenObject(prefix, XmlNode(n2))
  {
    ChildrenDependOnReadAttributes(prefix, n1.children, n2.children);
  }

  lemma ChildrenDependOnReadAttributes(prefix: Option<string>, cs1: seq<Node>, cs2: seq<Node>)
    requires |cs1| == |cs2|
    requires forall i :: 0 <= i < |cs1| ==> Relevant(cs1[i]) == Relevant(cs2[i])
    ensures FlattenChildren(prefix, cs1) == FlattenChildren(prefix, cs2)
  {
    forall i | 0 <= i < |cs1|
      ensures ChildStep(prefix)(cs1[i]) == ChildStep(prefix)(cs2[i])
    {
      ChildDependsOnReadAttributes(prefix, cs1[i], cs2[i]);
    }
    MapResultCongruent(cs1, cs2, ChildStep(prefix));
  }

}

/** Worked examples of the flattener on small documents. */
module RiskNodeExamples {
  import opened Wrappers
  import opened Text
  import opened Decimals
  import opened XmlModel
  import opened RiskNodeFlattener

  const UsdValue: Node := Node("value", map["ccy" := "USD", "value" := "7"], [])
  const EurUsdVega: Node := Node("FXVega", map["ccyPair" := "EURUSD", "expiry" := "1M", "value" := "n/a"], [])

  /** The pairs the two children above flatten to under the prefix `request`. */
  const UsdEntry: Entry := ("request." + ("value" + "-" + "USD"), Dec(Decimal(7, 0)))
  const VegaEntry: Entry :=
    ("request." + ("fxvega" + "-" + "EURUSD" + "-" + "1M" + "-" + "missing"), Str("n/a"))

  lemma UsdValueFlattens()
    ensures FlattenChild(Some("request"), UsdValue) == Success(UsdEntry)
  {
    ValueNameIsValue();
    SevenIsTyped();
    UsdKey();
  }

  lemma ValueNameIsValue()
    ensures KindOf("value") == Some(ValueRisk)
  {
    assert ToLower("value") == "value";
  }

  lemma SevenIsTyped()
    ensures TypedValue("7") == Dec(Decimal(7, 0))
  {
    ParseWholeNumber("7");
  }

  lemma UsdKey()
    ensures KeyFor(Some("request"), ValueRisk, UsdValue.attrs) == UsdEntry.0
  {
    assert KeyHead(Some("request")) == "request.";
  }

  lemma EurUsdVegaFlattens()
    ensures FlattenChild(Some("request"), EurUsdVega) == Success(VegaEntry)
  {
    MixedCaseVegaName();
    NotANumberIsKept();
    EurUsdVegaKey();
  }

  lemma MixedCaseVegaName()
    ensures KindOf("FXVega") == Some(FxVega)
  {
    assert ToLower("FXVega") == "fxvega";
  }

  lemma NotANumberIsKept()
    ensures TypedValue("n/a") == Str("n/a")
  {
    if ParseDecimal("n/a").Some? {
      ParsedTextIsNumeric("n/a");
    }
  }

  lemma EurUsdVegaKey()
    ensures KeyFor(Some("request"), FxVega, EurUsdVega.attrs) == VegaEntry.0
  {
    assert "ccy" !in EurUsdVega.attrs;
    assert KeyHead(Some("request")) == "request.";
  }

  /** A risks node with a value risk and an fxvega risk, the latter written with a
      mixed-case name, no currency and a non-numeric value, explodes into exactly two
      pairs, `request.value-USD` with the decimal 7 and `request.fxvega-EURUSD-1M-missing`
      with the text `n/a`, rather than one pair per attribute. */
  lemma ExplodedContainer()
    ensures
      FlattenObject(Some("request"), XmlNode(Node("risks", map[], [UsdValue, EurUsdVega])))
        == Success([UsdEntry, VegaEntry])
  {
    ExplodedChildren();
  }

  lemma ExplodedChildren()
    ensures FlattenChildren(Some("request"), [UsdValue, EurUsdVega]) == Success([UsdEntry, VegaEntry])
  {
    UsdValueFlattens();
    EurUsdVegaFlattens();
    TwoChildrenFlatten(Some("request"), UsdValue, EurUsdVega, UsdEntry, VegaEntry);
  }

  /** Keys need not be unique within one record: dimension texts that contain a dash
      can make two different fxvega risks share a key. */
  lemma VegaKeysCanCollide()
    ensures
      var a := Node("fxvega", map["ccyPair" := "EUR-GBP", "expiry" := "1M", "ccy" := "GBP", "value" := "1"], []);
      var b := Node("fxvega", map["ccyPair" := "EUR", "expiry" := "GBP-1M", "ccy" := "GBP", "value" := "2"], []);
      a != b && KeyFor(None, FxVega, a.attrs) == KeyFor(None, FxVega, b.attrs)
  {
    var a := Node("fxvega", map["ccyPair" := "EUR-GBP", "expiry" := "1M", "ccy" := "GBP", "value" := "1"], []);
    var b := Node("fxvega", map["ccyPair" := "EUR", "expiry" := "GBP-1M", "ccy" := "GBP", "value" := "2"], []);
    assert a.attrs["value"] != b.attrs["value"];
    var ka := "fxvega" + "-" + "EUR-GBP" + "-" + "1M" + "-" + "GBP";
    var kb := "fxvega" + "-" + "EUR" + "-" + "GBP-1M" + "-" + "GBP";
    assert ka == "fxvega-EUR-GBP-1M-GBP";
    assert kb == "fxvega-EUR-GBP-1M-GBP";
  }
}
