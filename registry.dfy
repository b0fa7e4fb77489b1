/** The import registry: the insertion-ordered map from trimmed URL to identifier,
    described by the sequence of accepted URLs it has seen. */
module Registry {
  import opened Js
  import opened Text
  import opened Ast
  import opened Gate
  import opened Splices

  /** `importPrefix + imports.size`. */
  function ImportName(prefix: string, k: nat): string {
    prefix + NatToString(k)
  }

  /** Two registry positions never share a name. */
  lemma ImportNamesDistinct(prefix: string, m: nat, n: nat)
    requires m != n
    ensures ImportName(prefix, m) != ImportName(prefix, n)
  {
    if ImportName(prefix, m) == ImportName(prefix, n) {
      assert NatToString(m) == ImportName(prefix, m)[|prefix|..];
      assert NatToString(n) == ImportName(prefix, n)[|prefix|..];
      NatToStringInjective(m, n);
    }
  }

  /** The text an attribute value is overwritten with: `{name}`. */
  function Placeholder(name: string): string {
    "{" + name + "}"
  }

  predicate Distinct(xs: seq<string>) {
    forall i, j :: 0 <= i < j < |xs| ==> xs[i] != xs[j]
  }

  /** The position of the first `x` in `xs`, `|xs|` when there is none. */
  function IndexOf(xs: seq<string>, x: string): (r: nat)
    ensures r <= |xs| && (r < |xs| <==> x in xs)
    ensures r < |xs| ==> xs[r] == x && forall j :: 0 <= j < r ==> xs[j] != x
  {
    if xs == [] then 0 else if xs[0] == x then 0 else 1 + IndexOf(xs[1..], x)
  }

  /** The distinct elements of `xs` in order of first occurrence: the keys of the
      registry, in insertion order, after `xs` was offered to it. */
  function Dedup(xs: seq<string>): seq<string> {
    if xs == [] then []
    else
      var d := Dedup(xs[..|xs| - 1]);
      if xs[|xs| - 1] in d then d else d + [xs[|xs| - 1]]
  }

  /** The registry holds every offered URL and nothing else. */
  lemma {:induction false} DedupMembers(xs: seq<string>)
    ensures forall x :: x in Dedup(xs) <==> x in xs
  {
    if xs != [] {
      var init := xs[..|xs| - 1];
      DedupMembers(init);
      assert xs == init + [xs[|xs| - 1]];
    }
  }

  /** The registry never holds one URL twice. */
  lemma {:induction false} DedupDistinct(xs: seq<string>)
    ensures Distinct(Dedup(xs))
  {
    if xs != [] {
      DedupDistinct(xs[..|xs| - 1]);
    }
  }

  /** What the registry held earlier is a prefix of what it holds later: entries are
      never renamed, removed or reordered. */
  lemma {:induction false} DedupPrefix(xs: seq<string>, i: nat)
    requires i <= |xs|
    ensures Dedup(xs[..i]) <= Dedup(xs)
    decreases |xs| - i
  {
    if i < |xs| {
      DedupPrefix(xs, i + 1);
      assert xs[..i + 1][..i] == xs[..i];
    } else {
      assert xs[..i] == xs;
    }
  }

  /** Sequential naming: the URL first offered at position `f` sits at the registry
      position equal to the number of distinct URLs offered before it. */
  lemma SequentialNaming(xs: seq<string>, f: nat)
    requires f < |xs| && xs[f] !in xs[..f]
    ensures IndexOf(Dedup(xs), xs[f]) == |Dedup(xs[..f])|
  {
    DedupMembers(xs[..f]);
    assert xs[..f + 1][..f] == xs[..f];
    assert Dedup(xs[..f + 1]) == Dedup(xs[..f]) + [xs[f]];
    DedupPrefix(xs, f + 1);
    DedupDistinct(xs);
  }

  /** A repeated URL adds nothing to the registry. */
  lemma RepeatIsNoOp(xs: seq<string>, u: string)
    requires u in xs
    ensures Dedup(xs + [u]) == Dedup(xs)
  {
    assert (xs + [u])[..|xs|] == xs;
    DedupMembers(xs);
  }

  /** A registry of distinct URLs has as many keys as entries: `imports.size` is the
      number of URLs registered so far. */
  lemma {:induction false} DistinctCount(xs: seq<string>)
    requires Distinct(xs)
    ensures |set u | u in xs| == |xs|
  {
    if xs != [] {
      var init := xs[..|xs| - 1];
      assert Distinct(init);
      DistinctCount(init);
      assert xs == init + [xs[|xs| - 1]];
      assert (set u | u in xs) == (set u | u in init) + {xs[|xs| - 1]};
      assert xs[|xs| - 1] !in init;
    }
  }

  /** What `addImport` works with once the attribute text is trimmed: the URL and the
      source range to overwrite. */
  datatype Candidate = Candidate(url: string, start: nat, end: nat)

  function CandidateOf(v: Span): Candidate {
    Candidate(Trim(v.raw), v.start, v.end)
  }

  /** The candidates of the spans handed to `addImport`, in order. */
  function CandidatesOf(spans: seq<Span>): (r: seq<Candidate>)
    ensures |r| == |spans|
  {
    if spans == [] then [] else CandidatesOf(spans[..|spans| - 1]) + [CandidateOf(spans[|spans| - 1])]
  }

  lemma {:induction false} CandidatesOfConcat(a: seq<Span>, b: seq<Span>)
    ensures CandidatesOf(a + b) == CandidatesOf(a) + CandidatesOf(b)
    decreases |b|
  {
    if b == [] {
      assert a + b == a;
    } else {
      var init, x := b[..|b| - 1], b[|b| - 1];
      assert (a + b)[..|a + b| - 1] == a + init;
      assert (a + b)[|a + b| - 1] == x;
      CandidatesOfConcat(a, init);
      assert CandidatesOf(a + b) == CandidatesOf(a) + CandidatesOf(init) + [CandidateOf(x)];
    }
  }

  /** The candidates that pass the gate, in order. */
  function AcceptedCandidates(cs: seq<Candidate>, http: bool, urlFilter: Option<string -> bool>): (r: seq<Candidate>)
    ensures |r| <= |cs|
    ensures forall k :: 0 <= k < |r| ==> Admit(r[k].url, http, urlFilter) == Accepted
  {
    if cs == [] then []
    else
      var init := AcceptedCandidates(cs[..|cs| - 1], http, urlFilter);
      var last := cs[|cs| - 1];
      if Admit(last.url, http, urlFilter) == Accepted then init + [last] else init
  }

  /** The URLs of `cs`. */
  function Urls(cs: seq<Candidate>): (r: seq<string>)
    ensures |r| == |cs| && forall k :: 0 <= k < |cs| ==> r[k] == cs[k].url
  {
    if cs == [] then [] else Urls(cs[..|cs| - 1]) + [cs[|cs| - 1].url]
  }

  /** The overwrite for one accepted candidate: its range, and the placeholder naming
      the registry entry of its URL. */
  function RewriteOf(c: Candidate, order: seq<string>, prefix: string): Splice {
    Overwrite(c.start, c.end, Placeholder(ImportName(prefix, IndexOf(order, c.url))))
  }

  /** One overwrite per accepted candidate, in order. */
  function Rewrites(cs: seq<Candidate>, order: seq<string>, prefix: string): (r: seq<Splice>)
    ensures |r| == |cs| && forall k :: 0 <= k < |cs| ==> r[k] == RewriteOf(cs[k], order, prefix)
  {
    if cs == [] then [] else Rewrites(cs[..|cs| - 1], order, prefix) + [RewriteOf(cs[|cs| - 1], order, prefix)]
  }

  /** Registering a new URL does not change the overwrites already recorded. */
  lemma {:induction false} RewritesStable(cs: seq<Candidate>, order: seq<string>, u: string, prefix: string)
    requires forall k :: 0 <= k < |cs| ==> cs[k].url in order
    ensures Rewrites(cs, order + [u], prefix) == Rewrites(cs, order, prefix)
  {
    if cs != [] {
      var init := cs[..|cs| - 1];
      assert forall k :: 0 <= k < |init| ==> init[k] == cs[k];
      RewritesStable(init, order, u, prefix);
      IndexOfSnoc(order, u, cs[|cs| - 1].url);
    }
  }

  /** Appending to `xs` does not move anything already in it. */
  lemma IndexOfSnoc(xs: seq<string>, u: string, x: string)
    requires x in xs
    ensures IndexOf(xs + [u], x) == IndexOf(xs, x)
  {
    var i, j := IndexOf(xs, x), IndexOf(xs + [u], x);
    assert (xs + [u])[i] == x;
    assert xs[j] == x;
  }

  /** The registry map for the URLs `order`, registered in that order: each one named
      by its position. */
  function Names(order: seq<string>, prefix: string): map<string, string> {
    if order == [] then map[]
    else Names(order[..|order| - 1], prefix)[order[|order| - 1] := ImportName(prefix, |order| - 1)]
  }

  /** The registry's keys are the registered URLs. */
  lemma {:induction false} NamesKeys(order: seq<string>, prefix: string)
    ensures Names(order, prefix).Keys == set u | u in order
  {
    if order != [] {
      var init := order[..|order| - 1];
      NamesKeys(init, prefix);
      assert order == init + [order[|order| - 1]];
      assert (set u | u in order) == (set u | u in init) + {order[|order| - 1]};
    }
  }

  /** A registered URL is named after its position in insertion order. */
  lemma {:induction false} NamesLookup(order: seq<string>, prefix: string, k: nat)
    requires Distinct(order) && k < |order|
    ensures order[k] in Names(order, prefix) && Names(order, prefix)[order[k]] == ImportName(prefix, k)
  {
    var init := order[..|order| - 1];
    if k < |order| - 1 {
      assert Distinct(init);
      NamesLookup(init, prefix, k);
      assert init[k] == order[k];
    }
  }

  /** `imports.size` is the number of registered URLs. */
  lemma NamesSize(order: seq<string>, prefix: string)
    requires Distinct(order)
    ensures |Names(order, prefix)| == |order|
  {
    NamesKeys(order, prefix);
    DistinctCount(order);
    assert |Names(order, prefix)| == |Names(order, prefix).Keys|;
  }

  /** `order` and `imports` are the registry after the URLs of `cs` were registered. */
  ghost predicate Registered(cs: seq<Candidate>, order: seq<string>, imports: map<string, string>, prefix: string) {
    order == Dedup(Urls(cs)) && imports == Names(order, prefix)
  }

  /** Offering one more candidate adds it to the accepted ones exactly when it passes the gate. */
  lemma AcceptedSnoc(cs: seq<Candidate>, c: Candidate, http: bool, urlFilter: Option<string -> bool>)
    ensures AcceptedCandidates(cs + [c], http, urlFilter)
         == if Admit(c.url, http, urlFilter) == Accepted then AcceptedCandidates(cs, http, urlFilter) + [c]
            else AcceptedCandidates(cs, http, urlFilter)
  {
    assert (cs + [c])[..|cs|] == cs;
  }

  /** A URL that is already registered keeps its name and is overwritten with it. */
  lemma RegisterKnown(cs: seq<Candidate>, c: Candidate, order: seq<string>, imports: map<string, string>, prefix: string)
    requires Registered(cs, order, imports, prefix) && c.url in imports
    ensures Registered(cs + [c], order, imports, prefix)
    ensures Rewrites(cs + [c], order, prefix)
         == Rewrites(cs, order, prefix) + [Overwrite(c.start, c.end, Placeholder(imports[c.url]))]
  {
    assert (cs + [c])[..|cs|] == cs;
    NamesKeys(order, prefix);
    DedupMembers(Urls(cs));
    RepeatIsNoOp(Urls(cs), c.url);
    DedupDistinct(Urls(cs));
    NamesLookup(order, prefix, IndexOf(order, c.url));
  }

  /** A new URL is registered under the next sequential name and overwritten with it. */
  lemma RegisterNew(cs: seq<Candidate>, c: Candidate, order: seq<string>, imports: map<string, string>, prefix: string)
    requires Registered(cs, order, imports, prefix) && c.url !in imports
    ensures Registered(cs + [c], order + [c.url], imports[c.url := ImportName(prefix, |order|)], prefix)
    ensures Rewrites(cs + [c], order + [c.url], prefix)
         == Rewrites(cs, order, prefix) + [Overwrite(c.start, c.end, Placeholder(ImportName(prefix, |order|)))]
  {
    NamesKeys(order, prefix);
    DedupMembers(Urls(cs));
    RegisterNewNames(cs, c, order, imports, prefix);
    RegisterNewRewrites(cs, c, order, prefix);
  }

  /** The registry half of `RegisterNew`. */
  lemma RegisterNewNames(cs: seq<Candidate>, c: Candidate, order: seq<string>, imports: map<string, string>, prefix: string)
    requires Registered(cs, order, imports, prefix) && c.url !in order
    ensures Registered(cs + [c], order + [c.url], imports[c.url := ImportName(prefix, |order|)], prefix)
  {
    assert (cs + [c])[..|cs|] == cs;
    var xs := Urls(cs + [c]);
    assert xs == Urls(cs) + [c.url];
    assert xs[..|xs| - 1] == Urls(cs);
    assert Dedup(xs) == order + [c.url];
    var o := order + [c.url];
    assert o[..|o| - 1] == order;
    assert Names(o, prefix) == imports[c.url := ImportName(prefix, |order|)];
  }

  /** The edits half of `RegisterNew`. */
  lemma RegisterNewRewrites(cs: seq<Candidate>, c: Candidate, order: seq<string>, prefix: string)
    requires order == Dedup(Urls(cs)) && c.url !in order
    ensures Rewrites(cs + [c], order + [c.url], prefix)
         == Rewrites(cs, order, prefix) + [Overwrite(c.start, c.end, Placeholder(ImportName(prefix, |order|)))]
  {
    assert (cs + [c])[..|cs|] == cs;
    DedupMembers(Urls(cs));
    RewritesStable(cs, order, c.url, prefix);
    assert IndexOf(order + [c.url], c.url) == |order|;
  }

  /** `imports.size` is the number of registered URLs. */
  lemma RegisteredSize(cs: seq<Candidate>, order: seq<string>, imports: map<string, string>, prefix: string)
    requires Registered(cs, order, imports, prefix)
    ensures |imports| == |order|
  {
    DedupDistinct(Urls(cs));
    NamesSize(order, prefix);
  }

  /** The registry and the edits recorded so far. */
  datatype State = State(order: seq<string>, imports: map<string, string>, edits: seq<Splice>)

  /** `addImport` on an already trimmed candidate: nothing when the gate refuses it;
      otherwise its URL is looked up, registered under `importPrefix + imports.size` if
      it is new, and the candidate's range is overwritten with the placeholder. */
  function Offer(st: State, c: Candidate, prefix: string, http: bool, urlFilter: Option<string -> bool>): State {
    if Admit(c.url, http, urlFilter) != Accepted then st
    else if c.url in st.imports then
      st.(edits := st.edits + [Overwrite(c.start, c.end, Placeholder(st.imports[c.url]))])
    else
      var name := ImportName(prefix, |st.imports|);
      State(st.order + [c.url], st.imports[c.url := name], st.edits + [Overwrite(c.start, c.end, Placeholder(name))])
  }

  /** The registry and the edits after the candidates `cs` were offered, in closed form:
      the accepted URLs in order of first occurrence, each named by its position, and one
      overwrite per accepted candidate. */
  ghost function RegistryAfter(cs: seq<Candidate>, prefix: string, http: bool, urlFilter: Option<string -> bool>): State {
    var accepted := AcceptedCandidates(cs, http, urlFilter);
    var order := Dedup(Urls(accepted));
    State(order, Names(order, prefix), Rewrites(accepted, order, prefix))
  }

  /** The registry and the edits after offering `cs`, one by one, to an empty registry. */
  function Offers(cs: seq<Candidate>, prefix: string, http: bool, urlFilter: Option<string -> bool>): State {
    if cs == [] then State([], map[], [])
    else Offer(Offers(cs[..|cs| - 1], prefix, http, urlFilter), cs[|cs| - 1], prefix, http, urlFilter)
  }

  /** `st` is the registry in closed form for `cs`. */
  ghost predicate Consistent(cs: seq<Candidate>, st: State, prefix: string, http: bool, urlFilter: Option<string -> bool>) {
    st == RegistryAfter(cs, prefix, http, urlFilter)
  }

  /** `Offer` keeps the registry consistent with the history of offered candidates. */
  lemma OfferPreserves(cs: seq<Candidate>, st: State, c: Candidate, prefix: string, http: bool, urlFilter: Option<string -> bool>)
    requires Consistent(cs, st, prefix, http, urlFilter)
    ensures Consistent(cs + [c], Offer(st, c, prefix, http, urlFilter), prefix, http, urlFilter)
  {
    var accepted := AcceptedCandidates(cs, http, urlFilter);
    assert Registered(accepted, st.order, st.imports, prefix) && st.edits == Rewrites(accepted, st.order, prefix);
    AcceptedSnoc(cs, c, http, urlFilter);
    if Admit(c.url, http, urlFilter) == Accepted {
      if c.url in st.imports {
        RegisterKnown(accepted, c, st.order, st.imports, prefix);
      } else {
        RegisteredSize(accepted, st.order, st.imports, prefix);
        RegisterNew(accepted, c, st.order, st.imports, prefix);
      }
    }
  }

  /** Offering candidates one by one builds the registry in closed form: each accepted
      URL once, in order of first occurrence, named by its position, and one overwrite
      per accepted candidate naming its URL's entry. */
  lemma {:induction false} OffersClosedForm(cs: seq<Candidate>, prefix: string, http: bool, urlFilter: Option<string -> bool>)
    ensures Offers(cs, prefix, http, urlFilter) == RegistryAfter(cs, prefix, http, urlFilter)
  {
    if cs != [] {
      var init := cs[..|cs| - 1];
      var last := cs[|cs| - 1];
      assert cs == init + [last];
      OffersClosedForm(init, prefix, http, urlFilter);
      OfferPreserves(init, Offers(init, prefix, http, urlFilter), last, prefix, http, urlFilter);
    }
  }

  /** The accepted candidates are the candidates the gate lets through. */
  lemma {:induction false} AcceptedMembers(cs: seq<Candidate>, http: bool, urlFilter: Option<string -> bool>)
    ensures forall c :: c in AcceptedCandidates(cs, http, urlFilter) <==> c in cs && Admit(c.url, http, urlFilter) == Accepted
  {
    if cs != [] {
      var init := cs[..|cs| - 1];
      AcceptedMembers(init, http, urlFilter);
      assert cs == init + [cs[|cs| - 1]];
    }
  }

  /** The map of a registry without repeated URLs: one key per entry, the keys exactly
      its URLs, each named after its position. */
  lemma NamesShape(order: seq<string>, prefix: string)
    requires Distinct(order)
    ensures var names := Names(order, prefix);
      && |names| == |order|
      && (forall u :: u in names <==> u in order)
      && (forall k :: 0 <= k < |order| ==> order[k] in names && names[order[k]] == ImportName(prefix, k))
  {
    NamesKeys(order, prefix);
    NamesSize(order, prefix);
    forall k | 0 <= k < |order|
      ensures order[k] in Names(order, prefix) && Names(order, prefix)[order[k]] == ImportName(prefix, k)
    {
      NamesLookup(order, prefix, k);
    }
  }

  /** The registered URLs are those of the candidates the gate accepts. */
  lemma RegisteredUrls(cs: seq<Candidate>, http: bool, urlFilter: Option<string -> bool>)
    ensures forall u :: u in Dedup(Urls(AcceptedCandidates(cs, http, urlFilter))) <==>
                        exists c :: c in cs && c.url == u && Admit(u, http, urlFilter) == Accepted
  {
    var accepted := AcceptedCandidates(cs, http, urlFilter);
    DedupMembers(Urls(accepted));
    AcceptedMembers(cs, http, urlFilter);
    forall u
      ensures u in Urls(accepted) <==> exists c :: c in cs && c.url == u && Admit(u, http, urlFilter) == Accepted
    {
      if u in Urls(accepted) {
        var k :| 0 <= k < |accepted| && Urls(accepted)[k] == u;
        assert accepted[k] in accepted;
      }
      if exists c :: c in cs && c.url == u && Admit(u, http, urlFilter) == Accepted {
        var c :| c in cs && c.url == u && Admit(u, http, urlFilter) == Accepted;
        var k :| 0 <= k < |accepted| && accepted[k] == c;
        assert Urls(accepted)[k] == u;
      }
    }
  }

  /** The registry after any sequence of offers: no URL twice, one key per entry, the
      keys exactly the accepted URLs, each named after its position. */
  lemma OffersShape(cs: seq<Candidate>, prefix: string, http: bool, urlFilter: Option<string -> bool>)
    ensures var st := Offers(cs, prefix, http, urlFilter);
      && Distinct(st.order)
      && |st.imports| == |st.order|
      && (forall u :: u in st.imports <==> u in st.order)
      && (forall k :: 0 <= k < |st.order| ==> st.order[k] in st.imports && st.imports[st.order[k]] == ImportName(prefix, k))
      && (forall u :: u in st.order <==> exists c :: c in cs && c.url == u && Admit(u, http, urlFilter) == Accepted)
  {
    OffersClosedForm(cs, prefix, http, urlFilter);
    var order := Dedup(Urls(AcceptedCandidates(cs, http, urlFilter)));
    DedupDistinct(Urls(AcceptedCandidates(cs, http, urlFilter)));
    NamesShape(order, prefix);
    RegisteredUrls(cs, http, urlFilter);
  }

  /** One more offer: a refused candidate leaves the registry and the edits as they were;
      an accepted one keeps every earlier entry, leaves its URL registered (under the
      next sequential name if it is new, with nothing else changed if it is not), and
      adds exactly one overwrite of its range, naming its URL's entry. */
  lemma OfferOutcome(cs: seq<Candidate>, c: Candidate, prefix: string, http: bool, urlFilter: Option<string -> bool>)
    ensures var st, next := Offers(cs, prefix, http, urlFilter), Offers(cs + [c], prefix, http, urlFilter);
      && (Admit(c.url, http, urlFilter) != Accepted ==> next == st)
      && (Admit(c.url, http, urlFilter) == Accepted ==>
            && c.url in next.imports
            && st.order <= next.order
            && (forall u :: u in st.imports ==> u in next.imports && next.imports[u] == st.imports[u])
            && next.edits == st.edits + [Overwrite(c.start, c.end, Placeholder(next.imports[c.url]))]
            && (c.url in st.imports ==> next.order == st.order && next.imports == st.imports)
            && (c.url !in st.imports ==>
                  next.order == st.order + [c.url] && next.imports[c.url] == ImportName(prefix, |st.order|)))
  {
    assert (cs + [c])[..|cs|] == cs;
    OffersShape(cs, prefix, http, urlFilter);
  }
}
