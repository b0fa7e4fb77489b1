/** The output composer: the import declarations and where they go. */
module Output {
  import opened Js
  import opened Ast
  import opened Splices

  /** `import ${importName} from "${path}";` */
  function ImportStatement(name: string, path: string): string {
    "import " + name + " from \"" + path + "\";"
  }

  /** The declarations for the registry entries `order` (in insertion order) named by `imports`. */
  function ImportLines(order: seq<string>, imports: map<string, string>): string
    requires forall k :: 0 <= k < |order| ==> order[k] in imports
  {
    if order == [] then []
    else ImportLines(order[..|order| - 1], imports)
         + ImportStatement(imports[order[|order| - 1]], order[|order| - 1])
  }

  /** The declarations of a concatenation are the two runs of declarations, one after the other. */
  lemma {:induction false} ImportLinesConcat(a: seq<string>, b: seq<string>, imports: map<string, string>)
    requires forall k :: 0 <= k < |a| ==> a[k] in imports
    requires forall k :: 0 <= k < |b| ==> b[k] in imports
    ensures forall k :: 0 <= k < |a + b| ==> (a + b)[k] in imports
    ensures ImportLines(a + b, imports) == ImportLines(a, imports) + ImportLines(b, imports)
    decreases |b|
  {
    if b == [] {
      assert a + b == a;
    } else {
      var init := b[..|b| - 1];
      assert (a + b)[..|a + b| - 1] == a + init;
      ImportLinesConcat(a, init, imports);
    }
  }

  /** There is declaration text exactly when there is a registry entry. */
  lemma ImportLinesEmpty(order: seq<string>, imports: map<string, string>)
    requires forall k :: 0 <= k < |order| ==> order[k] in imports
    ensures ImportLines(order, imports) == [] <==> order == []
  {
  }

  /** The `for...of` loop over `imports.entries()` that accumulates `importText`. */
  method ImportText(order: seq<string>, imports: map<string, string>) returns (text: string)
    requires forall k :: 0 <= k < |order| ==> order[k] in imports
    ensures text == ImportLines(order, imports)
  {
    text := "";
    for i := 0 to |order|
      invariant text == ImportLines(order[..i], imports)
    {
      assert order[..i + 1][..i] == order[..i];
      text := text + ImportStatement(imports[order[i]], order[i]);
    }
    assert order[..|order|] == order;
  }

  /** The single insertion: at the start of the module script if there is one, else at the
      start of the instance script, else a new script block appended to the document. */
  function InsertionFor(root: Root, text: string): (s: Splice)
    ensures root.moduleScript.Some? ==> s == AppendLeft(root.moduleScript.value.contentStart, text)
    ensures root.moduleScript.None? && root.instanceScript.Some? ==>
              s == AppendLeft(root.instanceScript.value.contentStart, text)
    ensures root.moduleScript.None? && root.instanceScript.None? ==> s == Append("<script>" + text + "</script>")
  {
    if root.moduleScript.Some? then AppendLeft(root.moduleScript.value.contentStart, text)
    else if root.instanceScript.Some? then AppendLeft(root.instanceScript.value.contentStart, text)
    else Append("<script>" + text + "</script>")
  }

  /** What the single insertion does to the text: the declarations go in at the start of
      the chosen script's content, or a new script block holding them ends the document. */
  lemma InsertionApplied(content: string, root: Root, text: string)
    requires root.moduleScript.Some? ==> root.moduleScript.value.contentStart <= |content|
    requires root.moduleScript.None? && root.instanceScript.Some? ==>
               root.instanceScript.value.contentStart <= |content|
    ensures WellFormed([InsertionFor(root, text)], |content|)
    ensures var s := InsertionFor(root, text);
      && (s.AppendLeft? ==> Apply(content, [s]) == content[..s.pos] + text + content[s.pos..])
      && (s.Append? ==> Apply(content, [s]) == content + ("<script>" + text + "</script>"))
  {
    var s := InsertionFor(root, text);
    if s.AppendLeft? {
      ApplyAppendLeft(content, s.pos, text);
    } else {
      var none: seq<Splice> := [];
      assert none + [s] == [s];
      ApplyNoSplices(content);
      ApplyAppend(content, none, s.text);
    }
  }
}
