/** The one-shot "ignore the next element" flag as a state machine over the nodes the
    walker enters. */
module IgnoreFlag {
  import opened Text
  import opened Ast

  /** A comment whose trimmed text is the directive. */
  predicate IsDirective(n: Node, directive: string) {
    n.Comment? && Trim(n.data) == directive
  }

  /** The flag after entering `n`: a directive sets it (again), an element clears it,
      any other node leaves it. */
  function NextFlag(flag: bool, n: Node, directive: string): (r: bool)
    ensures IsDirective(n, directive) ==> r
    ensures n.Element? ==> !r
    ensures !IsDirective(n, directive) && !n.Element? ==> r == flag
  {
    if IsDirective(n, directive) then true else if n.Element? then false else flag
  }

  /** The flag after entering `nodes` in order, starting cleared. */
  function FlagAfter(nodes: seq<Node>, directive: string): bool {
    if nodes == [] then false
    else NextFlag(FlagAfter(nodes[..|nodes| - 1], directive), nodes[|nodes| - 1], directive)
  }

  /** Some directive was entered and no element after it. */
  ghost predicate Armed(nodes: seq<Node>, directive: string) {
    exists j :: 0 <= j < |nodes| && IsDirective(nodes[j], directive) &&
      forall k :: j < k < |nodes| ==> !nodes[k].Element?
  }

  /** The flag is set exactly when a directive was entered and no element since. */
  lemma {:induction false} FlagAfterIsArmed(nodes: seq<Node>, directive: string)
    ensures FlagAfter(nodes, directive) <==> Armed(nodes, directive)
  {
    if nodes != [] {
      var init := nodes[..|nodes| - 1];
      var last := nodes[|nodes| - 1];
      FlagAfterIsArmed(init, directive);
      assert nodes == init + [last];
      if IsDirective(last, directive) {
        ArmedSnocDirective(init, last, directive);
      } else if last.Element? {
        ArmedSnocElement(init, last, directive);
      } else {
        ArmedSnocOther(init, last, directive);
      }
    }
  }

  /** Entering a directive arms the flag. */
  lemma ArmedSnocDirective(init: seq<Node>, last: Node, directive: string)
    requires IsDirective(last, directive)
    ensures Armed(init + [last], directive)
  {
    var nodes := init + [last];
    assert IsDirective(nodes[|init|], directive);
  }

  /** Entering an element disarms it. */
  lemma ArmedSnocElement(init: seq<Node>, last: Node, directive: string)
    requires last.Element?
    ensures !Armed(init + [last], directive)
  {
    var nodes := init + [last];
    assert nodes[|init|].Element?;
  }

  /** Entering any other node leaves it as it was. */
  lemma ArmedSnocOther(init: seq<Node>, last: Node, directive: string)
    requires !IsDirective(last, directive) && !last.Element?
    ensures Armed(init + [last], directive) <==> Armed(init, directive)
  {
    if Armed(init, directive) {
      var j :| 0 <= j < |init| && IsDirective(init[j], directive) &&
        forall k :: j < k < |init| ==> !init[k].Element?;
      StillArmed(init, last, directive, j);
    }
    if Armed(init + [last], directive) {
      var nodes := init + [last];
      var j :| 0 <= j < |nodes| && IsDirective(nodes[j], directive) &&
        forall k :: j < k < |nodes| ==> !nodes[k].Element?;
      WasArmed(init, last, directive, j);
    }
  }

  lemma StillArmed(init: seq<Node>, last: Node, directive: string, j: nat)
    requires !last.Element?
    requires j < |init| && IsDirective(init[j], directive)
    requires forall k :: j < k < |init| ==> !init[k].Element?
    ensures Armed(init + [last], directive)
  {
    var nodes := init + [last];
    assert nodes[j] == init[j];
    forall k | j < k < |nodes| ensures !nodes[k].Element? {
      if k < |init| { assert nodes[k] == init[k]; } else { assert nodes[k] == last; }
    }
  }

  lemma WasArmed(init: seq<Node>, last: Node, directive: string, j: nat)
    requires !IsDirective(last, directive)
    requires j < |init| + 1 && IsDirective((init + [last])[j], directive)
    requires forall k :: j < k < |init| + 1 ==> !(init + [last])[k].Element?
    ensures Armed(init, directive)
  {
    var nodes := init + [last];
    assert j != |init|;
    assert nodes[j] == init[j];
    forall k | j < k < |init| ensures !init[k].Element? {
      assert nodes[k] == init[k];
    }
  }

  /** An element entered at position `i` is skipped exactly when the flag stands before it. */
  predicate Skipped(nodes: seq<Node>, i: nat, directive: string)
    requires i < |nodes|
  {
    nodes[i].Element? && FlagAfter(nodes[..i], directive)
  }

  /** The directive reaches one element only: once an element has been entered, a later
      element is skipped only if another directive comes between them. */
  lemma OnlyNextElementSkipped(nodes: seq<Node>, directive: string, i: nat, j: nat)
    requires i < j < |nodes| && nodes[i].Element? && nodes[j].Element?
    requires forall k :: i < k < j ==> !IsDirective(nodes[k], directive)
    ensures !Skipped(nodes, j, directive)
  {
    FlagAfterIsArmed(nodes[..j], directive);
    assert nodes[..j][i] == nodes[i];
  }
}
