/** The attribute extractor: looking up an attribute by name, the single-literal check,
    and the flat name-to-text map handed to rule filters. */
module Attributes {
  import opened Js
  import opened Ast

  /** What a rule's filter is called with. */
  datatype FilterMetadata = FilterMetadata(
    tag: string,
    attribute: string,
    value: string,                           // the source text of the whole attribute
    attributes: map<string, Option<string>>  // None where the recorded `raw` is `undefined`
  )

  /** `v.name === attr`: a spread has no name. */
  predicate HasName(a: Attribute, name: string) {
    !a.Spread? && a.name == name
  }

  /** `attributes.find((v) => v.name === attr)`: the first attribute with that name. */
  function FindAttribute(attrs: seq<Attribute>, name: string): (r: Option<Attribute>)
    ensures r.None? <==> forall k :: 0 <= k < |attrs| ==> !HasName(attrs[k], name)
    ensures r.Some? ==> exists k :: 0 <= k < |attrs| && attrs[k] == r.value && HasName(r.value, name)
                                    && forall j :: 0 <= j < k ==> !HasName(attrs[j], name)
  {
    if attrs == [] then None
    else if HasName(attrs[0], name) then Some(attrs[0])
    else
      var r := FindAttribute(attrs[1..], name);
      assert r.Some? ==> exists k :: 0 <= k < |attrs| && attrs[k] == r.value && HasName(r.value, name)
                                    && forall j :: 0 <= j < k ==> !HasName(attrs[j], name) by {
        if r.Some? {
          var k :| 0 <= k < |attrs[1..]| && attrs[1..][k] == r.value && HasName(r.value, name)
                   && forall j :: 0 <= j < k ==> !HasName(attrs[1..][j], name);
          assert attrs[k + 1] == r.value;
          assert forall j :: 0 <= j < k + 1 ==> !HasName(attrs[j], name) by {
            forall j | 0 <= j < k + 1 ensures !HasName(attrs[j], name) {
              if j > 0 { assert attrs[j] == attrs[1..][j - 1]; }
            }
          }
        }
      }
      r
  }

  /** The check `value.length !== 1 || value[0].type !== 'Text'` on the attribute found:
      the literal part when the value is exactly one text part, `undefined` otherwise;
      reading the `value` of a directive throws. */
  function LiteralPart(a: Attribute): (r: Result<Option<Part>>)
    ensures r.Thrown? <==> a.Directive? || a.Spread?
    ensures r.Value? && r.value.Some? <==>
              a.Attribute? && a.value.Parts? && |a.value.parts| == 1 && a.value.parts[0].Text?
    ensures r.Value? && r.value.Some? ==> r.value.value == a.value.parts[0]
  {
    match a
    case Directive(_, _, _) => Thrown(TypeError)
    case Spread(_, _) => Thrown(TypeError)
    case Attribute(_, value, _, _) =>
      match value
      case Flag => Value(None)   // `true.length` is undefined, which is not 1
      case Parts(parts) => if |parts| != 1 || !parts[0].Text? then Value(None) else Value(Some(parts[0]))
  }

  /** Building the filter map reads `value.length` and then `value[0].raw`; it throws on
      an entry without a `value` (directive, spread), on a value-less attribute (`true[0]`
      is undefined) and on an empty part list. */
  predicate ScanThrows(a: Attribute) {
    a.Directive? || a.Spread? || a.value.Flag? || |a.value.parts| == 0
  }

  /** The condition `value.length > 1 && value[0].type !== 'Text'` under which an
      attribute is left out of the map. */
  predicate Omitted(a: Attribute) {
    a.Attribute? && a.value.Parts? && |a.value.parts| > 1 && !a.value.parts[0].Text?
  }

  /** An attribute that is written into the map. */
  predicate Recorded(a: Attribute) {
    !ScanThrows(a) && !Omitted(a)
  }

  /** What is written for it: the `raw` of its first part, `undefined` for a non-text part. */
  function RecordedValue(a: Attribute): Option<string>
    requires Recorded(a)
  {
    var p := a.value.parts[0];
    if p.Text? then Some(p.raw) else None
  }

  /** `attrs[k]` is the last recorded attribute with its name: it is the one a later
      assignment does not overwrite. */
  ghost predicate LastRecorded(attrs: seq<Attribute>, k: int)
    requires 0 <= k < |attrs| && Recorded(attrs[k])
  {
    forall j :: k < j < |attrs| && Recorded(attrs[j]) ==> attrs[j].name != attrs[k].name
  }

  /** The keys of `m` are the names of the recorded attributes. */
  ghost predicate KeysDescribe(attrs: seq<Attribute>, m: map<string, Option<string>>) {
    forall name :: name in m <==> exists k :: 0 <= k < |attrs| && Recorded(attrs[k]) && attrs[k].name == name
  }

  /** Each name is bound to the value of the last recorded attribute with that name. */
  ghost predicate ValuesDescribe(attrs: seq<Attribute>, m: map<string, Option<string>>) {
    forall k :: 0 <= k < |attrs| && Recorded(attrs[k]) && LastRecorded(attrs, k) ==>
      attrs[k].name in m && m[attrs[k].name] == RecordedValue(attrs[k])
  }

  /** `m` is the map the source builds for `attrs`: the names of the recorded attributes,
      each bound to the value of the last one with that name. */
  ghost predicate Describes(attrs: seq<Attribute>, m: map<string, Option<string>>) {
    KeysDescribe(attrs, m) && ValuesDescribe(attrs, m)
  }

  /** The outcome of the `forEach` that fills the filter map, attribute by attribute:
      the first attribute whose value cannot be read throws, a later assignment to the
      same name overwrites an earlier one. */
  function AttributeMap(attrs: seq<Attribute>): Result<map<string, Option<string>>> {
    if attrs == [] then Value(map[])
    else
      match AttributeMap(attrs[..|attrs| - 1])
      case Thrown(e) => Thrown(e)
      case Value(m) =>
        var a := attrs[|attrs| - 1];
        if ScanThrows(a) then Thrown(TypeError)
        else if Omitted(a) then Value(m)
        else Value(m[a.name := RecordedValue(a)])
  }

  /** The map throws exactly when some attribute cannot be read, and otherwise holds the
      last value recorded under each name. */
  lemma {:induction false} AttributeMapMeaning(attrs: seq<Attribute>)
    ensures AttributeMap(attrs).Thrown? <==> exists k :: 0 <= k < |attrs| && ScanThrows(attrs[k])
    ensures AttributeMap(attrs).Thrown? ==> AttributeMap(attrs).error == TypeError
    ensures AttributeMap(attrs).Value? ==> Describes(attrs, AttributeMap(attrs).value)
  {
    if attrs != [] {
      var n := |attrs| - 1;
      var init := attrs[..n];
      AttributeMapMeaning(init);
      assert forall k :: 0 <= k < n ==> init[k] == attrs[k];
      if AttributeMap(init).Value? && !ScanThrows(attrs[n]) {
        DescribesStep(attrs, n, AttributeMap(init).value, AttributeMap(attrs).value);
        assert attrs[..n + 1] == attrs;
      }
    }
  }

  /** `getAttributes()`: the `forEach` that fills the filter map. */
  method GetAttributes(attrs: seq<Attribute>) returns (r: Result<map<string, Option<string>>>)
    ensures r == AttributeMap(attrs)
  {
    var m: map<string, Option<string>> := map[];
    for i := 0 to |attrs|
      invariant AttributeMap(attrs[..i]) == Value(m)
    {
      var a := attrs[i];
      assert attrs[..i + 1][..i] == attrs[..i];
      match a {
        case Directive(_, _, _) =>
          ThrowsOnward(attrs, i + 1);
          return Thrown(TypeError);
        case Spread(_, _) =>
          ThrowsOnward(attrs, i + 1);
          return Thrown(TypeError);
        case Attribute(name, value, _, _) =>
          match value {
            case Flag =>
              ThrowsOnward(attrs, i + 1);
              return Thrown(TypeError);
            case Parts(parts) =>
              if |parts| > 1 && !parts[0].Text? {
                // left out of the map
              } else if |parts| == 0 {
                ThrowsOnward(attrs, i + 1);
                return Thrown(TypeError);
              } else {
                m := m[name := if parts[0].Text? then Some(parts[0].raw) else None];
              }
          }
      }
    }
    assert attrs[..|attrs|] == attrs;
    return Value(m);
  }

  /** Once the scan has thrown, it throws the same error whatever follows. */
  lemma {:induction false} ThrowsOnward(attrs: seq<Attribute>, i: nat)
    requires i <= |attrs| && AttributeMap(attrs[..i]).Thrown?
    ensures AttributeMap(attrs) == AttributeMap(attrs[..i])
    decreases |attrs| - i
  {
    if i < |attrs| {
      assert attrs[..i + 1][..i] == attrs[..i];
      ThrowsOnward(attrs, i + 1);
    } else {
      assert attrs[..i] == attrs;
    }
  }

  /** Recording one more attribute keeps the map in step with the prefix scanned so far. */
  lemma DescribesStep(attrs: seq<Attribute>, i: nat, before: map<string, Option<string>>, after: map<string, Option<string>>)
    requires i < |attrs| && Describes(attrs[..i], before)
    requires after == if Recorded(attrs[i]) then before[attrs[i].name := RecordedValue(attrs[i])] else before
    ensures Describes(attrs[..i + 1], after)
  {
    assert attrs[..i + 1] == attrs[..i] + [attrs[i]];
    KeysStep(attrs[..i], attrs[i], before, after);
    ValuesStep(attrs[..i], attrs[i], before, after);
  }

  /** The keys half of `DescribesStep`. */
  lemma KeysStep(p: seq<Attribute>, a: Attribute, before: map<string, Option<string>>, after: map<string, Option<string>>)
    requires KeysDescribe(p, before)
    requires after == if Recorded(a) then before[a.name := RecordedValue(a)] else before
    ensures KeysDescribe(p + [a], after)
  {
    var q := p + [a];
    forall name
      ensures name in after <==> exists k :: 0 <= k < |q| && Recorded(q[k]) && q[k].name == name
    {
      if name in before {
        var k :| 0 <= k < |p| && Recorded(p[k]) && p[k].name == name;
        assert q[k] == p[k];
      }
      if Recorded(a) && name == a.name {
        assert q[|p|] == a;
      }
      if exists k :: 0 <= k < |q| && Recorded(q[k]) && q[k].name == name {
        var k :| 0 <= k < |q| && Recorded(q[k]) && q[k].name == name;
        if k < |p| { assert p[k] == q[k]; }
      }
    }
  }

  /** The values half of `DescribesStep`. */
  lemma ValuesStep(p: seq<Attribute>, a: Attribute, before: map<string, Option<string>>, after: map<string, Option<string>>)
    requires Describes(p, before)
    requires after == if Recorded(a) then before[a.name := RecordedValue(a)] else before
    ensures ValuesDescribe(p + [a], after)
  {
    var q := p + [a];
    forall k | 0 <= k < |q| && Recorded(q[k]) && LastRecorded(q, k)
      ensures q[k].name in after && after[q[k].name] == RecordedValue(q[k])
    {
      if k < |p| {
        assert p[k] == q[k];
        assert LastRecorded(p, k) by {
          forall j | k < j < |p| && Recorded(p[j]) ensures p[j].name != p[k].name {
            assert q[j] == p[j];
          }
        }
        assert q[|p|] == a;
      }
    }
  }
}
