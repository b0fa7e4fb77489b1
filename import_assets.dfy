/** The markup preprocessor: one run over a component's source and its parsed tree. */
module ImportAssets {
  import opened Js
  import opened Text
  import opened Ast
  import opened Splices
  import opened Attributes
  import opened Srcset
  import opened Gate
  import opened Registry
  import opened IgnoreFlag
  import opened Output
  import opened Rules

  /** A statement of the run ended as the specification `spec` of what it collects says:
      with its error, or normally having offered exactly the spans of `spec`. */
  ghost predicate Extends(r: Completion, before: seq<Candidate>, after: seq<Candidate>, spec: Result<seq<Span>>) {
    if spec.Thrown? then r == Abrupt(spec.error) else r == Normal && after == before + CandidatesOf(spec.value)
  }

  /** Two statements run one after the other extend as their specifications, chained. */
  lemma ExtendsThen(r1: Completion, s0: seq<Candidate>, s1: seq<Candidate>, a: Result<seq<Span>>,
                    r2: Completion, s2: seq<Candidate>, b: Result<seq<Span>>)
    requires Extends(r1, s0, s1, a) && r1.Normal? && Extends(r2, s1, s2, b)
    ensures Extends(r2, s0, s2, AndThen(a, b))
  {
    if a.Value? && b.Value? {
      ExtendsConcat(s0, s1, s2, a.value, b.value);
    }
  }

  lemma ExtendsConcat(s0: seq<Candidate>, s1: seq<Candidate>, s2: seq<Candidate>, a: seq<Span>, b: seq<Span>)
    requires s1 == s0 + CandidatesOf(a) && s2 == s1 + CandidatesOf(b)
    ensures s2 == s0 + CandidatesOf(a + b)
  {
    CandidatesOfConcat(a, b);
  }

  /** Offering one more span after `done` extends the history by its candidate. */
  lemma OfferedSnoc(before: seq<Candidate>, done: seq<Span>, mid: seq<Candidate>, after: seq<Candidate>, v: Span)
    requires mid == before + CandidatesOf(done) && after == mid + [CandidateOf(v)]
    ensures after == before + CandidatesOf(done + [v])
  {
    assert (done + [v])[..|done|] == done;
    assert CandidatesOf(done + [v]) == CandidatesOf(done) + [CandidateOf(v)];
  }

  /** One turn of the loop over the srcset matches: the match `exec` returns is the next
      one of the candidate list, and the rest of the list starts where it ends. */
  lemma {:induction false} SrcsetStep(raw: string, base: nat, p: nat, done: seq<Span>)
    requires p <= |raw| && Exec(raw, p).Some?
    requires done + AsWrittenSpans(raw, base, Matches(raw, p)) == SrcsetSpansAsWritten(raw, base)
    ensures var m := Exec(raw, p).value;
      (done + [AsWrittenSpan(raw, base, m)]) + AsWrittenSpans(raw, base, Matches(raw, m.lastIndex)) == SrcsetSpansAsWritten(raw, base)
  {
    var m := Exec(raw, p).value;
    var rest := Matches(raw, m.lastIndex);
    assert Matches(raw, p) == [m] + rest;
    AsWrittenSpansCons(raw, base, m, rest);
    AppendAssoc(done, [AsWrittenSpan(raw, base, m)], AsWrittenSpans(raw, base, rest));
  }

  /** When `exec` finds nothing more, the loop has offered the whole candidate list. */
  lemma SrcsetDone(raw: string, base: nat, p: nat, done: seq<Span>)
    requires p <= |raw| && Exec(raw, p).None?
    requires done + AsWrittenSpans(raw, base, Matches(raw, p)) == SrcsetSpansAsWritten(raw, base)
    ensures done == SrcsetSpansAsWritten(raw, base)
  {
    assert Matches(raw, p) == [];
    assert done + [] == done;
  }

  /** One turn of the loop over a rule's source attributes; a turn that throws ends the loop
      with the outcome of the whole loop. */
  lemma SrcOffersStep(content: string, attrs: seq<Attribute>, source: AssetSource, names: seq<string>, i: nat,
                      s0: seq<Candidate>, s1: seq<Candidate>, c: Completion, s2: seq<Candidate>)
    requires i < |names|
    requires Extends(Normal, s0, s1, SrcOffers(content, attrs, source, names[..i]))
    requires Extends(c, s1, s2, SrcSpans(content, attrs, source, names[i]))
    ensures Extends(c, s0, s2, SrcOffers(content, attrs, source, names[..i + 1]))
    ensures c.Abrupt? ==> Extends(c, s0, s2, SrcOffers(content, attrs, source, names))
  {
    assert names[..i + 1][..i] == names[..i] && names[..i + 1][i] == names[i];
    ExtendsThen(Normal, s0, s1, SrcOffers(content, attrs, source, names[..i]),
                c, s2, SrcSpans(content, attrs, source, names[i]));
    if c.Abrupt? {
      SrcOffersThrowOnward(content, attrs, source, names, i + 1);
    }
  }

  lemma SrcsetOffersStep(content: string, attrs: seq<Attribute>, source: AssetSource, names: seq<string>, i: nat,
                         s0: seq<Candidate>, s1: seq<Candidate>, c: Completion, s2: seq<Candidate>)
    requires i < |names|
    requires Extends(Normal, s0, s1, SrcsetOffers(content, attrs, source, names[..i]))
    requires Extends(c, s1, s2, SrcsetSpansOf(content, attrs, source, names[i]))
    ensures Extends(c, s0, s2, SrcsetOffers(content, attrs, source, names[..i + 1]))
    ensures c.Abrupt? ==> Extends(c, s0, s2, SrcsetOffers(content, attrs, source, names))
  {
    assert names[..i + 1][..i] == names[..i] && names[..i + 1][i] == names[i];
    ExtendsThen(Normal, s0, s1, SrcsetOffers(content, attrs, source, names[..i]),
                c, s2, SrcsetSpansOf(content, attrs, source, names[i]));
    if c.Abrupt? {
      SrcsetOffersThrowOnward(content, attrs, source, names, i + 1);
    }
  }

  /** One turn of the loop over the rules for an element. */
  lemma ElementOffersStep(content: string, name: string, attrs: seq<Attribute>, sources: seq<AssetSource>, i: nat,
                          s0: seq<Candidate>, s1: seq<Candidate>, c: Completion, s2: seq<Candidate>)
    requires i < |sources|
    requires Extends(Normal, s0, s1, ElementOffers(content, name, attrs, sources[..i]))
    requires Extends(c, s1, s2, if sources[i].tag == name then RuleOffers(content, attrs, sources[i]) else Value([]))
    ensures Extends(c, s0, s2, ElementOffers(content, name, attrs, sources[..i + 1]))
    ensures c.Abrupt? ==> Extends(c, s0, s2, ElementOffers(content, name, attrs, sources))
  {
    assert sources[..i + 1][..i] == sources[..i] && sources[..i + 1][i] == sources[i];
    ExtendsThen(Normal, s0, s1, ElementOffers(content, name, attrs, sources[..i]),
                c, s2, if sources[i].tag == name then RuleOffers(content, attrs, sources[i]) else Value([]));
    if c.Abrupt? {
      ElementOffersThrowOnward(content, name, attrs, sources, i + 1);
    }
  }

  /** One turn of the walk. */
  lemma WalkOffersStep(content: string, nodes: seq<Node>, sources: seq<AssetSource>, directive: string, i: nat,
                       s0: seq<Candidate>, s1: seq<Candidate>, c: Completion, s2: seq<Candidate>)
    requires i < |nodes|
    requires Extends(Normal, s0, s1, WalkOffers(content, nodes[..i], sources, directive))
    requires Extends(c, s1, s2, NodeOffers(content, nodes[i], FlagAfter(nodes[..i], directive), sources))
    ensures Extends(c, s0, s2, WalkOffers(content, nodes[..i + 1], sources, directive))
    ensures c.Abrupt? ==> Extends(c, s0, s2, WalkOffers(content, nodes, sources, directive))
  {
    assert nodes[..i + 1][..i] == nodes[..i] && nodes[..i + 1][i] == nodes[i];
    ExtendsThen(Normal, s0, s1, WalkOffers(content, nodes[..i], sources, directive),
                c, s2, NodeOffers(content, nodes[i], FlagAfter(nodes[..i], directive), sources));
    if c.Abrupt? {
      WalkOffersThrowOnward(content, nodes, sources, directive, i + 1);
    }
  }

  /** Nothing offered, nothing changed. */
  lemma ExtendsNothing(s: seq<Candidate>)
    ensures Extends(Normal, s, s, Value([]))
  {
    assert s + CandidatesOf([]) == s;
  }

  /** The import statements added once the walk is over: none when nothing was
      registered, otherwise one insertion holding a statement per registered URL, in
      registration order. */
  function Header(root: Root, st: State): seq<Splice>
    requires forall k :: 0 <= k < |st.order| ==> st.order[k] in st.imports
  {
    if |st.imports| == 0 then [] else [InsertionFor(root, ImportLines(st.order, st.imports))]
  }

  /** The outcome of `markup` on `content` and its parse tree `root`: an exception raised
      during the walk, or the edited text; the edit buffer refuses edits that are not
      well formed. */
  function MarkupResult(content: string, root: Root, options: Options, ignoreFlag: string): Result<string> {
    match WalkOffers(content, PreOrder(root.html), options.sources, ignoreFlag)
    case Thrown(e) => Thrown(e)
    case Value(spans) =>
      var cs := CandidatesOf(spans);
      var st := Offers(cs, options.importPrefix, options.http, options.urlFilter);
      OffersShape(cs, options.importPrefix, options.http, options.urlFilter);
      var edits := st.edits + Header(root, st);
      if WellFormed(edits, |content|) then Value(Apply(content, edits)) else Thrown(SpliceError)
  }

  /** The outcome of `markup` once the walk has collected `walk`, and the registry and
      edit buffer are `st`. */
  lemma MarkupOfWalk(content: string, root: Root, options: Options, ignoreFlag: string, offered: seq<Candidate>, st: State)
    requires var walk := WalkOffers(content, PreOrder(root.html), options.sources, ignoreFlag);
      walk.Value? && offered == CandidatesOf(walk.value)
    requires st == Offers(offered, options.importPrefix, options.http, options.urlFilter)
    ensures forall k :: 0 <= k < |st.order| ==> st.order[k] in st.imports
    ensures MarkupResult(content, root, options, ignoreFlag) ==
      if WellFormed(st.edits + Header(root, st), |content|) then Value(Apply(content, st.edits + Header(root, st)))
      else Thrown(SpliceError)
  {
    OffersShape(offered, options.importPrefix, options.http, options.urlFilter);
  }

  /** `markup({ content })`: one preprocessor state, the walk, the import statements, and
      the rendered text. */
  method Markup(content: string, root: Root, options: Options, ignoreFlag: string) returns (r: Result<string>)
    ensures r == MarkupResult(content, root, options, ignoreFlag)
  {
    var pre := new Preprocessor(content, options, ignoreFlag);
    var c := pre.Walk(PreOrder(root.html));
    if c.Abrupt? {
      return Thrown(c.error);
    }
    assert pre.offered == CandidatesOf(WalkOffers(content, PreOrder(root.html), options.sources, ignoreFlag).value);
    MarkupOfWalk(content, root, options, ignoreFlag, pre.offered, pre.Current());
    pre.Compose(root);
    if !WellFormed(pre.edits, |content|) {
      return Thrown(SpliceError);
    }
    return Value(Apply(content, pre.edits));
  }

  /** A component none of whose elements carries an attribute that a rule for its tag
      looks at comes back unchanged, whatever its other attributes, comments and scripts. */
  lemma MarkupIdentity(content: string, root: Root, options: Options, ignoreFlag: string)
    requires NoAttributeMatches(PreOrder(root.html), options.sources)
    ensures MarkupResult(content, root, options, ignoreFlag) == Value(content)
  {
    NoAttributeNoOffers(content, PreOrder(root.html), options.sources, ignoreFlag);
    var none: seq<Splice> := [];
    assert none + none == none;
    ApplyNoSplices(content);
  }

  /** The srcset value `./a.png 1x, ./b.png 2x` registers `./a.png` and then `./b.png`,
      under the first two names, and overwrites exactly their tokens. */
  lemma SrcsetDecomposition(prefix: string, http: bool, base: nat)
    ensures var st := Offers(CandidatesOf(SrcsetSpansAsWritten("./a.png 1x, ./b.png 2x", base)), prefix, http, None);
      && st.order == ["./a.png", "./b.png"]
      && st.imports == map["./a.png" := ImportName(prefix, 0), "./b.png" := ImportName(prefix, 1)]
      && st.edits == [Overwrite(base, base + 7, Placeholder(ImportName(prefix, 0))),
                      Overwrite(base + 12, base + 19, Placeholder(ImportName(prefix, 1)))]
  {
    SpansOfTwo(base);
    CandidatesOfTwo(base);
    OffersOfTwo(prefix, http, base);
  }

  /** The value rewritten, wherever it sits in the component: each URL becomes its
      placeholder, and the descriptors, the comma and the text around the value stay as
      written. */
  lemma SrcsetRewrite(prefix: string, http: bool, pre: string, post: string)
    ensures var s := "./a.png 1x, ./b.png 2x";
      var st := Offers(CandidatesOf(SrcsetSpansAsWritten(s, |pre|)), prefix, http, None);
      && WellFormed(st.edits, |pre + s + post|)
      && Apply(pre + s + post, st.edits)
         == pre + Placeholder(ImportName(prefix, 0)) + " 1x, " + Placeholder(ImportName(prefix, 1)) + " 2x" + post
  {
    var s := "./a.png 1x, ./b.png 2x";
    var content := pre + s + post;
    var b := |pre|;
    var n0, n1 := Placeholder(ImportName(prefix, 0)), Placeholder(ImportName(prefix, 1));
    var st := Offers(CandidatesOf(SrcsetSpansAsWritten(s, b)), prefix, http, None);
    assert st.edits == [Overwrite(b, b + 7, n0), Overwrite(b + 12, b + 19, n1)] by {
      SrcsetDecomposition(prefix, http, b);
    }
    ApplyTwoOverwrites(content, b, b + 7, n0, b + 12, b + 19, n1);
    assert content[..b] == pre && content[b + 7..b + 12] == " 1x, " && content[b + 19..] == " 2x" + post by {
      GapsOfTwo();
      InsideSlices(pre, s, post, 7, 12);
      InsideSlices(pre, s, post, 19, 19);
    }
    AppendAssoc(pre + n0 + " 1x, " + n1, " 2x", post);
  }

  /** The srcset value ` a.png`, wherever it sits: the source registers `a.png` but
      overwrites the space and `a.pn`, so the last character of the URL is left after
      the placeholder. */
  lemma LeadingSpaceRewrite(prefix: string, http: bool, pre: string, post: string)
    ensures var s := " a.png";
      var st := Offers(CandidatesOf(SrcsetSpansAsWritten(s, |pre|)), prefix, http, None);
      && st.order == ["a.png"]
      && st.edits == [Overwrite(|pre|, |pre| + 5, Placeholder(ImportName(prefix, 0)))]
      && WellFormed(st.edits, |pre + s + post|)
      && Apply(pre + s + post, st.edits) == pre + Placeholder(ImportName(prefix, 0)) + "g" + post
  {
    var s := " a.png";
    var content := pre + s + post;
    var b := |pre|;
    var n0 := Placeholder(ImportName(prefix, 0));
    var st := Offers(CandidatesOf(SrcsetSpansAsWritten(s, b)), prefix, http, None);
    assert st.order == ["a.png"] && st.edits == [Overwrite(b, b + 5, n0)] by {
      LeadingSpaceOffers(prefix, http, b);
    }
    LeadingSpaceEdit(pre, post, n0);
  }

  /** Overwriting ` a.pn` in ` a.png` leaves the `g`. */
  lemma LeadingSpaceEdit(pre: string, post: string, t: string)
    ensures var content := pre + " a.png" + post;
      && WellFormed([Overwrite(|pre|, |pre| + 5, t)], |content|)
      && Apply(content, [Overwrite(|pre|, |pre| + 5, t)]) == pre + t + "g" + post
  {
    var s := " a.png";
    OverwriteInside(pre, s, post, 5, t);
    assert s[5..] == "g";
    AppendAssoc(pre + t, "g", post);
  }

  /** One overwrite of the first `j` characters of `s`, where `s` sits between `pre` and `post`. */
  lemma OverwriteInside(pre: string, s: string, post: string, j: nat, t: string)
    requires 0 < j <= |s|
    ensures WellFormed([Overwrite(|pre|, |pre| + j, t)], |pre + s + post|)
    ensures Apply(pre + s + post, [Overwrite(|pre|, |pre| + j, t)]) == pre + t + (s[j..] + post)
  {
    var content := pre + s + post;
    ApplyOneOverwrite(content, |pre|, |pre| + j, t);
    InsideSlices(pre, s, post, j, j);
  }

  /** What ` a.png` at offset `b` registers and overwrites. */
  lemma LeadingSpaceOffers(prefix: string, http: bool, b: nat)
    ensures var st := Offers(CandidatesOf(SrcsetSpansAsWritten(" a.png", b)), prefix, http, None);
      st == State(["a.png"], map["a.png" := ImportName(prefix, 0)], [Overwrite(b, b + 5, Placeholder(ImportName(prefix, 0)))])
  {
    var s := " a.png";
    AsWrittenMisplacesLeadingToken();
    var m := Match(0, 1, 6, 6);
    assert Slice(s, 1, 6) == "a.png";
    assert SrcsetSpansAsWritten(s, b) == [Span("a.png", b, b + 5)] by {
      assert AsWrittenSpans(s, b, [m]) == [AsWrittenSpan(s, b, m)];
    }
    var c := Candidate("a.png", b, b + 5);
    assert CandidatesOf([Span("a.png", b, b + 5)]) == [c] by {
      TrimLocal("a.png");
      assert [Span("a.png", b, b + 5)][..0] == [];
    }
    OfferOne(prefix, http, c);
  }

  /** A relative URL offered to an empty registry is registered under the first name. */
  lemma OfferOne(prefix: string, http: bool, c: Candidate)
    requires c.url == "a.png"
    ensures Offers([c], prefix, http, None)
         == State([c.url], map[c.url := ImportName(prefix, 0)], [Overwrite(c.start, c.end, Placeholder(ImportName(prefix, 0)))])
  {
    assert Admit(c.url, http, None) == Accepted by {
      assert c.url[0] == 'a';
      assert c.url[..1] != "#";
    }
    assert [c][..0] == [];
    var empty := Offers([], prefix, http, None);
    assert empty == State([], map[], []);
    assert |empty.imports| == 0;
  }

  /** Cutting a concatenation `pre + s + post` at offsets of `s`. */
  lemma InsideSlices(pre: string, s: string, post: string, i: nat, j: nat)
    requires i <= j <= |s|
    ensures var c := pre + s + post;
      && c[..|pre|] == pre
      && c[|pre| + i..|pre| + j] == s[i..j]
      && c[|pre| + j..] == s[j..] + post
  {
    var c := pre + s + post;
    assert forall k :: i <= k < j ==> c[|pre| + k] == s[k];
    var rest := s[j..] + post;
    assert forall k :: 0 <= k < |rest| ==> c[|pre| + j + k] == rest[k];
  }

  /** What lies around the example's two tokens. */
  lemma GapsOfTwo()
    ensures var s := "./a.png 1x, ./b.png 2x";
      s[..0] == [] && s[7..12] == " 1x, " && s[19..] == " 2x"
  {
  }

  /** Offering the example's two candidates registers both, in order. */
  lemma OffersOfTwo(prefix: string, http: bool, base: nat)
    ensures var st := Offers([Candidate("./a.png", base, base + 7), Candidate("./b.png", base + 12, base + 19)], prefix, http, None);
      && st.order == ["./a.png", "./b.png"]
      && st.imports == map["./a.png" := ImportName(prefix, 0), "./b.png" := ImportName(prefix, 1)]
      && st.edits == [Overwrite(base, base + 7, Placeholder(ImportName(prefix, 0))),
                      Overwrite(base + 12, base + 19, Placeholder(ImportName(prefix, 1)))]
  {
    var ca, cb := Candidate("./a.png", base, base + 7), Candidate("./b.png", base + 12, base + 19);
    LocalAccepted("./a.png", http);
    LocalAccepted("./b.png", http);
    var cs := [ca, cb];
    assert cs[..1] == [ca];
    assert [ca][..0] == [];
    var empty := Offers([], prefix, http, None);
    assert empty == State([], map[], []);
    assert |empty.imports| == 0;
    assert ca.url !in empty.imports;
    var st0 := Offers([ca], prefix, http, None);
    assert st0 == Offer(empty, ca, prefix, http, None);
    assert st0 == State(["./a.png"], map["./a.png" := ImportName(prefix, 0)], [Overwrite(base, base + 7, Placeholder(ImportName(prefix, 0)))]);
    assert "./b.png" !in st0.imports by { assert "./b.png"[2] != "./a.png"[2]; }
  }

  /** The candidates of the example's two spans are their tokens, already trimmed. */
  lemma CandidatesOfTwo(base: nat)
    ensures CandidatesOf([Span("./a.png", base, base + 7), Span("./b.png", base + 12, base + 19)])
         == [Candidate("./a.png", base, base + 7), Candidate("./b.png", base + 12, base + 19)]
  {
    var a, b := Span("./a.png", base, base + 7), Span("./b.png", base + 12, base + 19);
    TrimLocal(a.raw);
    TrimLocal(b.raw);
    assert [a, b][..1] == [a];
    assert [a][..0] == [];
  }

  /** A relative path passes the gate whatever `http` says, when there is no filter. */
  lemma LocalAccepted(u: string, http: bool)
    requires u == "./a.png" || u == "./b.png"
    ensures Admit(u, http, None) == Accepted
  {
    assert u[0] == '.';
    assert u[..1] != "#";
    assert u[..7] != "http://";
  }

  /** A path without surrounding white space is its own trimmed form. */
  lemma TrimLocal(u: string)
    requires |u| > 0 && !IsSpace(u[0]) && !IsSpace(u[|u| - 1])
    ensures Trim(u) == u
  {
  }

  /** The state of one `markup` call: the rules, the registry, the edit buffer, the
      ignore flag and the memo of the element being visited. */
  class Preprocessor {
    const content: string
    const sources: seq<AssetSource>
    const importPrefix: string
    const http: bool
    const urlFilter: Option<string -> bool>
    const ignoreFlag: string

    /** The keys of `imports` in insertion order (the order a `Map` iterates in). */
    var order: seq<string>
    var imports: map<string, string>
    /** The edits handed to the edit buffer, in call order. */
    var edits: seq<Splice>
    var ignoreNextElement: bool
    /** `lazyAttributes` of the element being visited: undefined until first asked for. */
    var lazyAttributes: Option<map<string, Option<string>>>
    /** Every span handed to `addImport` so far, admitted or not, once trimmed. */
    ghost var offered: seq<Candidate>
    /** The attributes of the element being visited. */
    var attributes: seq<Attribute>
    /** How many times the attribute map of the element being visited has been built. */
    ghost var attributeScans: nat

    /** The registry and the edit buffer as a value. */
    function Current(): State
      reads this`order, this`imports, this`edits
    {
      State(order, imports, edits)
    }

    /** The registry and the edit buffer are what offering `offered`, in order, to an
        empty registry leaves. */
    ghost predicate Valid()
      reads this`order, this`imports, this`edits, this`offered
    {
      Current() == Offers(offered, importPrefix, http, urlFilter)
    }

    /** The memo: the attribute map of the visited element is built at most once, and
        once built it is the map of that element. */
    ghost predicate Memo()
      reads this`lazyAttributes, this`attributeScans, this`attributes
    {
      && (lazyAttributes.None? ==> attributeScans == 0)
      && (lazyAttributes.Some? ==> attributeScans == 1 && AttributeMap(attributes) == Value(lazyAttributes.value))
    }

    constructor (content: string, options: Options, ignoreFlag: string)
      ensures this.content == content && this.ignoreFlag == ignoreFlag
      ensures sources == options.sources && importPrefix == options.importPrefix
      ensures http == options.http && urlFilter == options.urlFilter
      ensures offered == [] && order == [] && imports == map[] && edits == []
      ensures !ignoreNextElement && lazyAttributes.None? && attributeScans == 0
      ensures Valid() && Memo()
    {
      this.content := content;
      this.ignoreFlag := ignoreFlag;
      sources := options.sources;
      importPrefix := options.importPrefix;
      http := options.http;
      urlFilter := options.urlFilter;
      order := [];
      imports := map[];
      edits := [];
      ignoreNextElement := false;
      lazyAttributes := None;
      offered := [];
      attributes := [];
      attributeScans := 0;
    }

    /** `addImport`: trim the attribute text and apply the three checks in source order;
        a URL that passes them is registered. */
    method AddImport(v: Span)
      requires Valid()
      modifies this`order, this`imports, this`edits, this`offered
      ensures Valid()
      ensures offered == old(offered) + [CandidateOf(v)]
      ensures Current() == Offer(old(Current()), CandidateOf(v), importPrefix, http, urlFilter)
    {
      var url := Trim(v.raw);
      if StartsWith(url, "#") {
        Refuse(v);
        return;
      }
      if !http && IsRemote(url) {
        Refuse(v);
        return;
      }
      if urlFilter.Some? && !urlFilter.value(url) {
        Refuse(v);
        return;
      }
      Register(v, url);
    }

    /** A refused URL leaves the registry and the edit buffer as they are. */
    ghost method Refuse(v: Span)
      requires Valid() && Admit(Trim(v.raw), http, urlFilter) != Accepted
      modifies this`offered
      ensures Valid()
      ensures offered == old(offered) + [CandidateOf(v)]
    {
      ghost var c := CandidateOf(v);
      assert (offered + [c])[..|offered|] == offered;
      offered := offered + [c];
    }

    /** The rest of `addImport` for a URL that passed the checks: look it up, register
        it under `importPrefix + imports.size` if it is new, and overwrite the span
        with the placeholder of its name. */
    method Register(v: Span, url: string)
      requires Valid() && url == Trim(v.raw) && Admit(url, http, urlFilter) == Accepted
      modifies this`order, this`imports, this`edits, this`offered
      ensures Valid()
      ensures offered == old(offered) + [CandidateOf(v)]
      ensures Current() == Offer(old(Current()), CandidateOf(v), importPrefix, http, urlFilter)
    {
      ghost var c := Candidate(url, v.start, v.end);
      ghost var target := Offer(Current(), c, importPrefix, http, urlFilter);
      assert (offered + [c])[..|offered|] == offered;
      offered := offered + [c];
      var importName: string;
      if url in imports {
        importName := imports[url];
      } else {
        importName := ImportName(importPrefix, |imports|);
        imports := imports[url := importName];
        order := order + [url];
      }
      edits := edits + [Overwrite(v.start, v.end, Placeholder(importName))];
      assert Current() == target;
    }
  
    /** `getAttributes()`: the attribute map of the visited element, built on first use
        only; later calls return the same map without scanning again. */
    method CachedAttributes() returns (r: Result<map<string, Option<string>>>)
      requires Memo()
      modifies this`lazyAttributes, this`attributeScans
      ensures r == AttributeMap(attributes)
      ensures r.Value? ==> Memo()
      ensures old(lazyAttributes).Some? ==> lazyAttributes == old(lazyAttributes) && attributeScans == old(attributeScans)
    {
      if lazyAttributes.Some? {
        return Value(lazyAttributes.value);
      }
      r := GetAttributes(attributes);
      attributeScans := attributeScans + 1;
      if r.Value? {
        lazyAttributes := Some(r.value);
      }
    }

    /** `getAttrValue(attr)` for the rule `source` on the visited element. */
    method GetAttrValue(source: AssetSource, attr: string) returns (r: Result<Option<Part>>)
      requires Memo()
      modifies this`lazyAttributes, this`attributeScans
      ensures r == LiteralValue(content, attributes, source, attr)
      ensures r.Value? ==> Memo()
    {
      var found := FindAttribute(attributes, attr);
      if found.None? {
        return Value(None);
      }
      var a := found.value;
      var literal := LiteralPart(a);
      if literal.Thrown? {
        return Thrown(literal.error);
      }
      if literal.value.None? {
        return Value(None);
      }
      if source.filter.Some? {
        var m := CachedAttributes();
        if m.Thrown? {
          return Thrown(m.error);
        }
        if !source.filter.value(FilterMetadata(source.tag, attr, Slice(content, a.start, a.end), m.value)) {
          return Value(None);
        }
      }
      return Value(literal.value);
    }

    /** One source attribute of a matched rule: its literal value, if any, is offered whole. */
    method CheckSrc(source: AssetSource, attr: string) returns (r: Completion)
      requires Valid() && Memo()
      modifies this`order, this`imports, this`edits, this`offered, this`lazyAttributes, this`attributeScans
      ensures Valid()
      ensures Extends(r, old(offered), offered, SrcSpans(content, attributes, source, attr))
      ensures r.Normal? ==> Memo()
    {
      var v := GetAttrValue(source, attr);
      r := OfferSrc(v);
    }

    /** The `forEach` callback for a source attribute, given its value. */
    method OfferSrc(v: Result<Option<Part>>) returns (r: Completion)
      requires Valid() && (v.Value? && v.value.Some? ==> v.value.value.Text?)
      modifies this`order, this`imports, this`edits, this`offered
      ensures Valid()
      ensures Extends(r, old(offered), offered, SrcOfLiteral(v))
      ensures r.Normal? <==> v.Value?
    {
      if v.Thrown? {
        return Abrupt(v.error);
      }
      if v.value.Some? {
        var p := v.value.value;
        ghost var mid := offered;
        AddImport(PartSpan(p));
        OfferedSnoc(mid, [], mid, offered, PartSpan(p));
      }
      return Normal;
    }

    /** One srcset attribute of a matched rule: every candidate URL the pattern finds in
        its literal value is offered, left to right, each with the span the source
        computes for it (starting where the whole match starts). */
    method CheckSrcset(source: AssetSource, attr: string) returns (r: Completion)
      requires Valid() && Memo()
      modifies this`order, this`imports, this`edits, this`offered, this`lazyAttributes, this`attributeScans
      ensures Valid()
      ensures Extends(r, old(offered), offered, SrcsetSpansOf(content, attributes, source, attr))
      ensures r.Normal? ==> Memo()
    {
      var v := GetAttrValue(source, attr);
      r := OfferSrcset(v);
    }

    /** The `forEach` callback for a srcset attribute, given its value. */
    method OfferSrcset(v: Result<Option<Part>>) returns (r: Completion)
      requires Valid() && (v.Value? && v.value.Some? ==> v.value.value.Text?)
      modifies this`order, this`imports, this`edits, this`offered
      ensures Valid()
      ensures Extends(r, old(offered), offered, SrcsetOfLiteral(v))
      ensures r.Normal? <==> v.Value?
    {
      if v.Thrown? {
        return Abrupt(v.error);
      }
      if v.value.Some? {
        OfferCandidates(v.value.value);
      } else {
        assert offered + CandidatesOf([]) == offered;
      }
      return Normal;
    }

    /** The `while (match = srcsetRegex.exec(value.raw))` loop over one literal srcset value. */
    method OfferCandidates(p: Part)
      requires Valid() && p.Text?
      modifies this`order, this`imports, this`edits, this`offered
      ensures Valid()
      ensures offered == old(offered) + CandidatesOf(SrcsetSpansAsWritten(p.raw, p.start))
    {
      ghost var done: seq<Span> := [];
      var lastIndex := 0;
      var m := Exec(p.raw, lastIndex);
      while m.Some?
        invariant Valid()
        invariant lastIndex <= |p.raw| && m == Exec(p.raw, lastIndex)
        invariant offered == old(offered) + CandidatesOf(done)
        invariant done + AsWrittenSpans(p.raw, p.start, Matches(p.raw, lastIndex)) == SrcsetSpansAsWritten(p.raw, p.start)
        decreases |p.raw| - lastIndex
      {
        var sp := AsWrittenSpan(p.raw, p.start, m.value);
        ghost var mid := offered;
        AddImport(sp);
        SrcsetStep(p.raw, p.start, lastIndex, done);
        OfferedSnoc(old(offered), done, mid, offered, sp);
        done := done + [sp];
        lastIndex := m.value.lastIndex;
        m := Exec(p.raw, lastIndex);
      }
      SrcsetDone(p.raw, p.start, lastIndex, done);
    }
  
    /** `source.srcAttributes?.forEach(...)`: each source attribute in turn; the first
        one that throws ends the loop. */
    method CheckSrcAttributes(source: AssetSource) returns (r: Completion)
      requires Valid() && Memo()
      modifies this`order, this`imports, this`edits, this`offered, this`lazyAttributes, this`attributeScans
      ensures Valid()
      ensures Extends(r, old(offered), offered, SrcOffers(content, attributes, source, source.srcAttributes))
      ensures r.Normal? ==> Memo()
    {
      var names := source.srcAttributes;
      for i := 0 to |names|
        invariant Valid() && Memo()
        invariant Extends(Normal, old(offered), offered, SrcOffers(content, attributes, source, names[..i]))
      {
        ghost var mid := offered;
        var c := CheckSrc(source, names[i]);
        SrcOffersStep(content, attributes, source, names, i, old(offered), mid, c, offered);
        if c.Abrupt? {
          return c;
        }
      }
      assert names[..|names|] == names;
      return Normal;
    }

    /** `source.srcsetAttributes?.forEach(...)`. */
    method CheckSrcsetAttributes(source: AssetSource) returns (r: Completion)
      requires Valid() && Memo()
      modifies this`order, this`imports, this`edits, this`offered, this`lazyAttributes, this`attributeScans
      ensures Valid()
      ensures Extends(r, old(offered), offered, SrcsetOffers(content, attributes, source, source.srcsetAttributes))
      ensures r.Normal? ==> Memo()
    {
      var names := source.srcsetAttributes;
      for i := 0 to |names|
        invariant Valid() && Memo()
        invariant Extends(Normal, old(offered), offered, SrcsetOffers(content, attributes, source, names[..i]))
      {
        ghost var mid := offered;
        var c := CheckSrcset(source, names[i]);
        SrcsetOffersStep(content, attributes, source, names, i, old(offered), mid, c, offered);
        if c.Abrupt? {
          return c;
        }
      }
      assert names[..|names|] == names;
      return Normal;
    }

    /** A rule whose tag matched the visited element: its source attributes, then its
        srcset attributes. */
    method ApplyRule(source: AssetSource) returns (r: Completion)
      requires Valid() && Memo()
      modifies this`order, this`imports, this`edits, this`offered, this`lazyAttributes, this`attributeScans
      ensures Valid()
      ensures Extends(r, old(offered), offered, RuleOffers(content, attributes, source))
      ensures r.Normal? ==> Memo()
    {
      r := CheckSrcAttributes(source);
      if r.Abrupt? {
        return;
      }
      ghost var mid := offered;
      var c := CheckSrcsetAttributes(source);
      ExtendsThen(r, old(offered), mid, SrcOffers(content, attributes, source, source.srcAttributes),
                  c, offered, SrcsetOffers(content, attributes, source, source.srcsetAttributes));
      r := c;
    }
  
    /** Entering an element that is not skipped: a fresh memo for its attributes, then
        every rule in order, those whose tag is the element's name applied. The attribute
        map is built at most once, whatever number of rules and filters ask for it. */
    method VisitElement(name: string, attrs: seq<Attribute>) returns (r: Completion)
      requires Valid()
      modifies this`order, this`imports, this`edits, this`offered, this`lazyAttributes, this`attributeScans, this`attributes
      ensures Valid()
      ensures Extends(r, old(offered), offered, ElementOffers(content, name, attrs, sources))
      ensures attributes == attrs
      ensures r.Normal? ==> Memo() && attributeScans <= 1
    {
      attributes := attrs;
      lazyAttributes := None;
      attributeScans := 0;
      ExtendsNothing(offered);
      for i := 0 to |sources|
        invariant Valid() && Memo() && attributes == attrs
        invariant Extends(Normal, old(offered), offered, ElementOffers(content, name, attrs, sources[..i]))
      {
        var source := sources[i];
        ghost var mid := offered;
        var c := Normal;
        if source.tag == name {
          c := ApplyRule(source);
        } else {
          ExtendsNothing(offered);
        }
        ElementOffersStep(content, name, attrs, sources, i, old(offered), mid, c, offered);
        if c.Abrupt? {
          return c;
        }
      }
      assert sources[..|sources|] == sources;
      return Normal;
    }

    /** The walker's `enter` callback: a directive comment arms the flag; an element
        entered while it is armed disarms it and is skipped; any other element is visited. */
    method Enter(n: Node) returns (r: Completion)
      requires Valid()
      modifies this`order, this`imports, this`edits, this`offered, this`lazyAttributes, this`attributeScans, this`attributes
      modifies this`ignoreNextElement
      ensures Valid()
      ensures Extends(r, old(offered), offered, NodeOffers(content, n, old(ignoreNextElement), sources))
      ensures ignoreNextElement == NextFlag(old(ignoreNextElement), n, ignoreFlag)
    {
      match n {
        case Comment(data) =>
          if Trim(data) == ignoreFlag {
            ignoreNextElement := true;
          }
          ExtendsNothing(offered);
          return Normal;
        case Element(name, attrs, _) =>
          if ignoreNextElement {
            ignoreNextElement := false;
            ExtendsNothing(offered);
            return Normal;
          }
          r := VisitElement(name, attrs);
        case Other(_) =>
          ExtendsNothing(offered);
          return Normal;
      }
    }

    /** `walk(ast.html, { enter })`: every node in the order the walker enters it; an
        exception raised while visiting an element ends the walk. */
    method Walk(nodes: seq<Node>) returns (r: Completion)
      requires Valid() && !ignoreNextElement
      modifies this`order, this`imports, this`edits, this`offered, this`lazyAttributes, this`attributeScans, this`attributes
      modifies this`ignoreNextElement
      ensures Valid()
      ensures Extends(r, old(offered), offered, WalkOffers(content, nodes, sources, ignoreFlag))
      ensures r.Normal? ==> ignoreNextElement == FlagAfter(nodes, ignoreFlag)
    {
      ExtendsNothing(offered);
      for i := 0 to |nodes|
        invariant Valid() && ignoreNextElement == FlagAfter(nodes[..i], ignoreFlag)
        invariant Extends(Normal, old(offered), offered, WalkOffers(content, nodes[..i], sources, ignoreFlag))
      {
        ghost var mid := offered;
        var c := Enter(nodes[i]);
        WalkOffersStep(content, nodes, sources, ignoreFlag, i, old(offered), mid, c, offered);
        if c.Abrupt? {
          return c;
        }
        assert nodes[..i + 1][..i] == nodes[..i];
      }
      assert nodes[..|nodes|] == nodes;
      return Normal;
    }
  
    /** `if (imports.size)`: the import statements, placed at the start of the module
        script, else of the instance script, else in a new script after the markup. */
    method Compose(root: Root)
      requires forall k :: 0 <= k < |order| ==> order[k] in imports
      modifies this`edits
      ensures edits == old(edits) + Header(root, old(Current()))
    {
      if |imports| > 0 {
        var importText := ImportText(order, imports);
        edits := edits + [InsertionFor(root, importText)];
      } else {
        assert edits + [] == edits;
      }
    }
  }
}
