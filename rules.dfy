/** What one run collects from the tree, as values: the spans offered to `addImport`,
    attribute by attribute, rule by rule and element by element, or the error that
    ends the run. */
module Rules {
  import opened Js
  import opened Text
  import opened Ast
  import opened Attributes
  import opened Srcset
  import opened IgnoreFlag

  /** A rule: the element tag it applies to, the attributes holding one URL, the
      attributes holding a srcset list, and an optional predicate on the attribute. */
  datatype AssetSource = AssetSource(
    tag: string,
    srcAttributes: seq<string>,
    srcsetAttributes: seq<string>,
    filter: Option<FilterMetadata -> bool>)

  /** The options once defaults are applied and a `sources` function has been called. */
  datatype Options = Options(
    sources: seq<AssetSource>,
    importPrefix: string,
    http: bool,
    urlFilter: Option<string -> bool>)

  /** Run `a`, then `b`: the first error wins, otherwise the spans of both in order. */
  function AndThen(a: Result<seq<Span>>, b: Result<seq<Span>>): (r: Result<seq<Span>>)
    ensures a.Thrown? ==> r == a
    ensures a.Value? && b.Thrown? ==> r == b
    ensures a.Value? && b.Value? ==> r == Value(a.value + b.value)
  {
    if a.Thrown? then a else if b.Thrown? then b else Value(a.value + b.value)
  }

  /** `getAttrValue(attr)`: the first attribute named `attr`, when its value is a single
      literal, and the rule's filter (if any) accepts it. Reading the value of a
      directive throws; the filter's attribute map may throw. */
  function LiteralValue(content: string, attrs: seq<Attribute>, source: AssetSource, attr: string): (r: Result<Option<Part>>)
    ensures r.Value? && r.value.Some? ==> r.value.value.Text?
  {
    match FindAttribute(attrs, attr)
    case None => Value(None)
    case Some(a) =>
      match LiteralPart(a)
      case Thrown(e) => Thrown(e)
      case Value(None) => Value(None)
      case Value(Some(p)) =>
        if source.filter.None? then Value(Some(p))
        else
          match AttributeMap(attrs)
          case Thrown(e) => Thrown(e)
          case Value(m) =>
            if source.filter.value(FilterMetadata(source.tag, attr, Slice(content, a.start, a.end), m))
            then Value(Some(p)) else Value(None)
  }

  /** `attrs[k]` is the attribute `find` returns for `name`. */
  predicate FirstNamed(attrs: seq<Attribute>, name: string, k: int) {
    0 <= k < |attrs| && HasName(attrs[k], name) && forall j :: 0 <= j < k ==> !HasName(attrs[j], name)
  }

  /** An attribute written `name="text"`: its value is exactly one text part. */
  predicate IsLiteral(a: Attribute) {
    a.Attribute? && a.value.Parts? && |a.value.parts| == 1 && a.value.parts[0].Text?
  }

  /** The rule has no filter, or its filter, called with the attribute's source text and
      the element's attribute map, accepts the attribute. */
  predicate FilterAccepts(content: string, attrs: seq<Attribute>, source: AssetSource, attr: string, a: Attribute) {
    source.filter.None? ||
    (AttributeMap(attrs).Value? &&
     source.filter.value(FilterMetadata(source.tag, attr, Slice(content, a.start, a.end), AttributeMap(attrs).value)))
  }

  lemma FirstNamedUnique(attrs: seq<Attribute>, name: string, k: int, l: int)
    requires FirstNamed(attrs, name, k) && FirstNamed(attrs, name, l)
    ensures k == l
  {
  }

  /** `getAttrValue` returns a part exactly when the attribute `find` returns is a
      literal the filter accepts, and then it is that attribute's only part; it throws
      exactly when that attribute is a directive, or the filter's attribute map throws. */
  lemma LiteralValueMeaning(content: string, attrs: seq<Attribute>, source: AssetSource, attr: string)
    ensures var r := LiteralValue(content, attrs, source, attr);
      && ((r.Value? && r.value.Some?) <==>
            exists k :: FirstNamed(attrs, attr, k) && IsLiteral(attrs[k]) && FilterAccepts(content, attrs, source, attr, attrs[k]))
      && (r.Value? && r.value.Some? ==>
            forall k :: FirstNamed(attrs, attr, k) ==> r.value.value == attrs[k].value.parts[0])
      && (r.Thrown? <==>
            exists k :: FirstNamed(attrs, attr, k) &&
              (attrs[k].Directive? || (IsLiteral(attrs[k]) && source.filter.Some? && AttributeMap(attrs).Thrown?)))
  {
    var found := FindAttribute(attrs, attr);
    if found.Some? {
      var k :| FirstNamed(attrs, attr, k) && attrs[k] == found.value;
      forall l | FirstNamed(attrs, attr, l) ensures l == k {
        FirstNamedUnique(attrs, attr, k, l);
      }
    }
  }

  /** The span of a literal part. */
  function PartSpan(p: Part): Span
    requires p.Text?
  {
    Span(p.raw, p.start, p.end)
  }

  /** What a source attribute offers, given the outcome of `getAttrValue`: its whole
      literal value, as one span. */
  function SrcOfLiteral(v: Result<Option<Part>>): Result<seq<Span>>
    requires v.Value? && v.value.Some? ==> v.value.value.Text?
  {
    match v
    case Thrown(e) => Thrown(e)
    case Value(None) => Value([])
    case Value(Some(p)) => Value([PartSpan(p)])
  }

  /** What a srcset attribute offers, given the outcome of `getAttrValue`: one span per
      candidate URL of its literal value, placed where the source places it (from the
      start of the whole match). */
  function SrcsetOfLiteral(v: Result<Option<Part>>): Result<seq<Span>>
    requires v.Value? && v.value.Some? ==> v.value.value.Text?
  {
    match v
    case Thrown(e) => Thrown(e)
    case Value(None) => Value([])
    case Value(Some(p)) => Value(SrcsetSpansAsWritten(p.raw, p.start))
  }

  /** One source attribute of a rule. */
  function SrcSpans(content: string, attrs: seq<Attribute>, source: AssetSource, attr: string): Result<seq<Span>> {
    SrcOfLiteral(LiteralValue(content, attrs, source, attr))
  }

  /** One srcset attribute of a rule. */
  function SrcsetSpansOf(content: string, attrs: seq<Attribute>, source: AssetSource, attr: string): Result<seq<Span>> {
    SrcsetOfLiteral(LiteralValue(content, attrs, source, attr))
  }

  /** `source.srcAttributes?.forEach(...)`. */
  function SrcOffers(content: string, attrs: seq<Attribute>, source: AssetSource, names: seq<string>): Result<seq<Span>> {
    if names == [] then Value([])
    else AndThen(SrcOffers(content, attrs, source, names[..|names| - 1]),
                 SrcSpans(content, attrs, source, names[|names| - 1]))
  }

  /** `source.srcsetAttributes?.forEach(...)`. */
  function SrcsetOffers(content: string, attrs: seq<Attribute>, source: AssetSource, names: seq<string>): Result<seq<Span>> {
    if names == [] then Value([])
    else AndThen(SrcsetOffers(content, attrs, source, names[..|names| - 1]),
                 SrcsetSpansOf(content, attrs, source, names[|names| - 1]))
  }

  /** One rule whose tag matched: its source attributes, then its srcset attributes. */
  function RuleOffers(content: string, attrs: seq<Attribute>, source: AssetSource): Result<seq<Span>> {
    AndThen(SrcOffers(content, attrs, source, source.srcAttributes),
            SrcsetOffers(content, attrs, source, source.srcsetAttributes))
  }

  /** Every rule, in order, applied to an element with tag `name`; rules for other tags
      contribute nothing. */
  function ElementOffers(content: string, name: string, attrs: seq<Attribute>, sources: seq<AssetSource>): Result<seq<Span>> {
    if sources == [] then Value([])
    else
      var source := sources[|sources| - 1];
      AndThen(ElementOffers(content, name, attrs, sources[..|sources| - 1]),
              if source.tag == name then RuleOffers(content, attrs, source) else Value([]))
  }

  /** One entered node, given whether the ignore flag is set when it is entered: only an
      element that is not skipped contributes. */
  function NodeOffers(content: string, n: Node, flag: bool, sources: seq<AssetSource>): Result<seq<Span>> {
    if n.Element? && !flag then ElementOffers(content, n.name, n.attributes, sources) else Value([])
  }

  /** The nodes in the order the walker enters them. */
  function WalkOffers(content: string, nodes: seq<Node>, sources: seq<AssetSource>, directive: string): Result<seq<Span>> {
    if nodes == [] then Value([])
    else
      var init := nodes[..|nodes| - 1];
      AndThen(WalkOffers(content, init, sources, directive),
              NodeOffers(content, nodes[|nodes| - 1], FlagAfter(init, directive), sources))
  }

  /** No entered element has a tag some rule names. */
  predicate NoRuleMatches(nodes: seq<Node>, sources: seq<AssetSource>) {
    forall k, j :: 0 <= k < |nodes| && 0 <= j < |sources| && nodes[k].Element? ==> sources[j].tag != nodes[k].name
  }

  lemma {:induction false} NoRuleNoElementOffers(content: string, name: string, attrs: seq<Attribute>, sources: seq<AssetSource>)
    requires forall j :: 0 <= j < |sources| ==> sources[j].tag != name
    ensures ElementOffers(content, name, attrs, sources) == Value([])
  {
    if sources != [] {
      var init := sources[..|sources| - 1];
      assert forall j :: 0 <= j < |init| ==> init[j] == sources[j];
      NoRuleNoElementOffers(content, name, attrs, init);
      var none: seq<Span> := [];
      assert none + none == none;
    }
  }

  /** A tree none of whose elements a rule names offers nothing and cannot throw,
      whatever its attributes. */
  lemma {:induction false} NoRuleNoOffers(content: string, nodes: seq<Node>, sources: seq<AssetSource>, directive: string)
    requires NoRuleMatches(nodes, sources)
    ensures WalkOffers(content, nodes, sources, directive) == Value([])
  {
    if nodes != [] {
      var n := |nodes| - 1;
      var init := nodes[..n];
      assert forall k :: 0 <= k < |init| ==> init[k] == nodes[k];
      NoRuleNoOffers(content, init, sources, directive);
      if nodes[n].Element? {
        NoRuleNoElementOffers(content, nodes[n].name, nodes[n].attributes, sources);
      }
      var none: seq<Span> := [];
      assert none + none == none;
    }
  }

  /** None of `names` is an attribute of the element. */
  predicate Absent(attrs: seq<Attribute>, names: seq<string>) {
    forall i :: 0 <= i < |names| ==> FindAttribute(attrs, names[i]).None?
  }

  /** No entered element carries an attribute that a rule naming its tag looks at. */
  predicate NoAttributeMatches(nodes: seq<Node>, sources: seq<AssetSource>) {
    forall k, j :: 0 <= k < |nodes| && 0 <= j < |sources| && nodes[k].Element? && sources[j].tag == nodes[k].name ==>
      Absent(nodes[k].attributes, sources[j].srcAttributes) && Absent(nodes[k].attributes, sources[j].srcsetAttributes)
  }

  lemma {:induction false} SrcNone(content: string, attrs: seq<Attribute>, source: AssetSource, names: seq<string>)
    requires Absent(attrs, names)
    ensures SrcOffers(content, attrs, source, names) == Value([])
  {
    if names != [] {
      var init := names[..|names| - 1];
      assert forall i :: 0 <= i < |init| ==> init[i] == names[i];
      SrcNone(content, attrs, source, init);
      assert FindAttribute(attrs, names[|names| - 1]).None?;
      var none: seq<Span> := [];
      assert none + none == none;
    }
  }

  lemma {:induction false} SrcsetNone(content: string, attrs: seq<Attribute>, source: AssetSource, names: seq<string>)
    requires Absent(attrs, names)
    ensures SrcsetOffers(content, attrs, source, names) == Value([])
  {
    if names != [] {
      var init := names[..|names| - 1];
      assert forall i :: 0 <= i < |init| ==> init[i] == names[i];
      SrcsetNone(content, attrs, source, init);
      assert FindAttribute(attrs, names[|names| - 1]).None?;
      var none: seq<Span> := [];
      assert none + none == none;
    }
  }

  /** An element without any attribute its rules look at offers nothing. */
  lemma {:induction false} ElementNone(content: string, name: string, attrs: seq<Attribute>, sources: seq<AssetSource>)
    requires forall j :: 0 <= j < |sources| && sources[j].tag == name ==>
      Absent(attrs, sources[j].srcAttributes) && Absent(attrs, sources[j].srcsetAttributes)
    ensures ElementOffers(content, name, attrs, sources) == Value([])
  {
    if sources != [] {
      var init := sources[..|sources| - 1];
      var source := sources[|sources| - 1];
      assert forall j :: 0 <= j < |init| ==> init[j] == sources[j];
      ElementNone(content, name, attrs, init);
      if source.tag == name {
        SrcNone(content, attrs, source, source.srcAttributes);
        SrcsetNone(content, attrs, source, source.srcsetAttributes);
      }
      var none: seq<Span> := [];
      assert none + none == none;
    }
  }

  /** A walk in which no element carries an attribute that a rule for its tag looks at
      offers nothing and cannot throw, whatever else the elements carry. */
  lemma {:induction false} NoAttributeNoOffers(content: string, nodes: seq<Node>, sources: seq<AssetSource>, directive: string)
    requires NoAttributeMatches(nodes, sources)
    ensures WalkOffers(content, nodes, sources, directive) == Value([])
  {
    if nodes != [] {
      var n := |nodes| - 1;
      var init := nodes[..n];
      assert forall k :: 0 <= k < |init| ==> init[k] == nodes[k];
      NoAttributeNoOffers(content, init, sources, directive);
      if nodes[n].Element? {
        ElementNone(content, nodes[n].name, nodes[n].attributes, sources);
      }
      var none: seq<Span> := [];
      assert none + none == none;
    }
  }

  /** An element entered right after the ignore directive (only non-elements between)
      adds nothing to what the walk collects, even when a rule names it. */
  lemma SkippedElementOffersNothing(content: string, nodes: seq<Node>, i: nat, sources: seq<AssetSource>, directive: string)
    requires i < |nodes| && Skipped(nodes, i, directive)
    ensures WalkOffers(content, nodes[..i + 1], sources, directive) == WalkOffers(content, nodes[..i], sources, directive)
  {
    assert nodes[..i + 1][..i] == nodes[..i];
    var done := WalkOffers(content, nodes[..i], sources, directive);
    if done.Value? {
      assert done.value + [] == done.value;
    }
  }

  /** The first rule attribute that throws ends the `forEach`: nothing after it runs. */
  lemma {:induction false} SrcOffersThrowOnward(content: string, attrs: seq<Attribute>, source: AssetSource, names: seq<string>, i: nat)
    requires i <= |names| && SrcOffers(content, attrs, source, names[..i]).Thrown?
    ensures SrcOffers(content, attrs, source, names) == SrcOffers(content, attrs, source, names[..i])
    decreases |names| - i
  {
    if i < |names| {
      assert names[..i + 1][..i] == names[..i];
      SrcOffersThrowOnward(content, attrs, source, names, i + 1);
    } else {
      assert names[..i] == names;
    }
  }

  lemma {:induction false} SrcsetOffersThrowOnward(content: string, attrs: seq<Attribute>, source: AssetSource, names: seq<string>, i: nat)
    requires i <= |names| && SrcsetOffers(content, attrs, source, names[..i]).Thrown?
    ensures SrcsetOffers(content, attrs, source, names) == SrcsetOffers(content, attrs, source, names[..i])
    decreases |names| - i
  {
    if i < |names| {
      assert names[..i + 1][..i] == names[..i];
      SrcsetOffersThrowOnward(content, attrs, source, names, i + 1);
    } else {
      assert names[..i] == names;
    }
  }

  /** A rule that throws ends the loop over the rules. */
  lemma {:induction false} ElementOffersThrowOnward(content: string, name: string, attrs: seq<Attribute>, sources: seq<AssetSource>, i: nat)
    requires i <= |sources| && ElementOffers(content, name, attrs, sources[..i]).Thrown?
    ensures ElementOffers(content, name, attrs, sources) == ElementOffers(content, name, attrs, sources[..i])
    decreases |sources| - i
  {
    if i < |sources| {
      assert sources[..i + 1][..i] == sources[..i];
      ElementOffersThrowOnward(content, name, attrs, sources, i + 1);
    } else {
      assert sources[..i] == sources;
    }
  }

  /** An element that throws ends the walk. */
  lemma {:induction false} WalkOffersThrowOnward(content: string, nodes: seq<Node>, sources: seq<AssetSource>, directive: string, i: nat)
    requires i <= |nodes| && WalkOffers(content, nodes[..i], sources, directive).Thrown?
    ensures WalkOffers(content, nodes, sources, directive) == WalkOffers(content, nodes[..i], sources, directive)
    decreases |nodes| - i
  {
    if i < |nodes| {
      assert nodes[..i + 1][..i] == nodes[..i];
      WalkOffersThrowOnward(content, nodes, sources, directive, i + 1);
    } else {
      assert nodes[..i] == nodes;
    }
  }
}
