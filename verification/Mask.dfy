/**
 * Field masking of nodes and what is expanded below them (web/mask.go): what the result shows, and the
 * copy-on-write walk that computes it over nodes that may be shared.
 */
module Mask {
  import opened Common
  import opened Types

  /** The read rule of a type for the action at hand: the fields it hides, or None where there is no rule to read it. */
  type Rules = string -> Option<seq<string>>

  // ---------------------------------------------------------------- what is shown

  datatype NodeTree = NodeTree(id: int, typ: string, fields: Fields, expand: map<string, Branch>)

  datatype Branch = OneNode(n: NodeTree) | ManyNodes(ns: seq<NodeTree>) | Plain(v: Value)

  function Without(fields: Fields, hidden: seq<string>): Fields {
    map k | k in fields && k !in hidden :: fields[k]
  }

  /** An expanded entry is shown when every node directly in it is of a readable type. */
  predicate Readable(rules: Rules, b: Branch) {
    match b
    case OneNode(n) => rules(n.typ).Some?
    case ManyNodes(ns) => forall i :: 0 <= i < |ns| ==> rules(ns[i].typ).Some?
    case Plain(_) => true
  }

  /** The node without its hidden fields and unreadable entries, and the same below it. */
  function Masked(rules: Rules, t: NodeTree): NodeTree
    requires rules(t.typ).Some?
  {
    NodeTree(t.id, t.typ, Without(t.fields, rules(t.typ).value),
             map k | k in t.expand && Readable(rules, t.expand[k]) :: MaskedBranch(rules, t.expand[k]))
  }

  function MaskedBranch(rules: Rules, b: Branch): Branch
    requires Readable(rules, b)
  {
    match b
    case OneNode(n) => OneNode(Masked(rules, n))
    case ManyNodes(ns) => ManyNodes(MaskedAll(rules, ns))
    case Plain(v) => b
  }

  function MaskedAll(rules: Rules, ns: seq<NodeTree>): (r: seq<NodeTree>)
    requires forall i :: 0 <= i < |ns| ==> rules(ns[i].typ).Some?
    ensures |r| == |ns| && forall i :: 0 <= i < |ns| ==> r[i] == Masked(rules, ns[i])
  {
    if ns == [] then [] else [Masked(rules, ns[0])] + MaskedAll(rules, ns[1..])
  }

  // ---------------------------------------------------------------- properties of the result

  /** No hidden name among the fields and nothing of an unreadable type, at any depth. */
  predicate Clean(rules: Rules, t: NodeTree) {
    && rules(t.typ).Some?
    && (forall k :: k in t.fields ==> k !in rules(t.typ).value)
    && forall k :: k in t.expand ==> CleanBranch(rules, t.expand[k])
  }

  predicate CleanBranch(rules: Rules, b: Branch) {
    match b
    case OneNode(n) => Clean(rules, n)
    case ManyNodes(ns) => forall i :: 0 <= i < |ns| ==> Clean(rules, ns[i])
    case Plain(_) => true
  }

  lemma {:induction false} MaskedIsClean(rules: Rules, t: NodeTree)
    requires rules(t.typ).Some?
    ensures Clean(rules, Masked(rules, t))
    decreases t
  {
    var u := Masked(rules, t);
    forall k | k in u.expand ensures CleanBranch(rules, u.expand[k]) {
      MaskedBranchIsClean(rules, t.expand[k]);
    }
  }

  lemma {:induction false} MaskedBranchIsClean(rules: Rules, b: Branch)
    requires Readable(rules, b)
    ensures CleanBranch(rules, MaskedBranch(rules, b))
    decreases b
  {
    hide Masked, Clean;
    match b
    case OneNode(n) => MaskedIsClean(rules, n);
    case ManyNodes(ns) =>
      forall i | 0 <= i < |ns| ensures Clean(rules, Masked(rules, ns[i])) { MaskedIsClean(rules, ns[i]); }
    case Plain(_) =>
  }

  // ---------------------------------------------------------------- hidden names of expanded entries

  /** A hidden name is never a field, but is still an entry when it names a readable one. */
  lemma HiddenIsShownIff(rules: Rules, t: NodeTree, k: string)
    requires rules(t.typ).Some? && k in rules(t.typ).value
    ensures k !in Masked(rules, t).fields
    ensures k in Masked(rules, t).expand <==> k in t.expand && Readable(rules, t.expand[k])
    ensures k in Masked(rules, t).expand ==> Masked(rules, t).expand[k] == MaskedBranch(rules, t.expand[k])
  {
  }

  /** No hidden name at all is left, at any depth. */
  predicate Sealed(rules: Rules, t: NodeTree) {
    && rules(t.typ).Some?
    && (forall k :: k in t.fields ==> k !in rules(t.typ).value)
    && forall k :: k in t.expand ==> k !in rules(t.typ).value && SealedBranch(rules, t.expand[k])
  }

  predicate SealedBranch(rules: Rules, b: Branch) {
    match b
    case OneNode(n) => Sealed(rules, n)
    case ManyNodes(ns) => forall i :: 0 <= i < |ns| ==> Sealed(rules, ns[i])
    case Plain(_) => true
  }

  /** No readable entry has a hidden name, down to any depth the reader sees. */
  predicate NamesNoHidden(rules: Rules, t: NodeTree) {
    rules(t.typ).Some? && forall k :: k in t.expand && Readable(rules, t.expand[k]) ==>
      k !in rules(t.typ).value && BranchNamesNoHidden(rules, t.expand[k])
  }

  predicate BranchNamesNoHidden(rules: Rules, b: Branch) {
    match b
    case OneNode(n) => NamesNoHidden(rules, n)
    case ManyNodes(ns) => forall i :: 0 <= i < |ns| ==> NamesNoHidden(rules, ns[i])
    case Plain(_) => true
  }

  /** Masking leaves no hidden name if and only if no readable entry of the input has one. */
  lemma {:induction false} MaskedIsSealedIff(rules: Rules, t: NodeTree)
    requires rules(t.typ).Some?
    ensures Sealed(rules, Masked(rules, t)) <==> NamesNoHidden(rules, t)
    decreases t
  {
    var u := Masked(rules, t);
    forall k | k in t.expand && Readable(rules, t.expand[k])
      ensures k in u.expand && (SealedBranch(rules, u.expand[k]) <==> BranchNamesNoHidden(rules, t.expand[k]))
    {
      BranchIsSealedIff(rules, t.expand[k]);
    }
    hide SealedBranch, BranchNamesNoHidden, MaskedBranch, Readable;
    assert forall k :: k in u.expand ==> k in t.expand && Readable(rules, t.expand[k]);
  }

  lemma {:induction false} BranchIsSealedIff(rules: Rules, b: Branch)
    requires Readable(rules, b)
    ensures SealedBranch(rules, MaskedBranch(rules, b)) <==> BranchNamesNoHidden(rules, b)
    decreases b
  {
    hide Masked, Sealed, NamesNoHidden;
    match b
    case OneNode(n) => MaskedIsSealedIff(rules, n);
    case ManyNodes(ns) =>
      forall i | 0 <= i < |ns| ensures Sealed(rules, Masked(rules, ns[i])) <==> NamesNoHidden(rules, ns[i]) {
        MaskedIsSealedIff(rules, ns[i]);
      }
    case Plain(_) =>
  }

  /** A post whose author is hidden still shows the author, expanded under the hidden name. */
  lemma HiddenAuthorIsShown()
    ensures
      var rules: Rules := typ => Some(if typ == "post" then ["author"] else []);
      var author := NodeTree(7, "user", map[], map[]);
      var post := NodeTree(1, "post", map["author" := Int(7)], map["author" := OneNode(author)]);
      && Masked(rules, post) == NodeTree(1, "post", map[], map["author" := OneNode(author)])
      && Clean(rules, Masked(rules, post)) && !Sealed(rules, Masked(rules, post))
  {
    var rules: Rules := typ => Some(if typ == "post" then ["author"] else []);
    var author := NodeTree(7, "user", map[], map[]);
    var post := NodeTree(1, "post", map["author" := Int(7)], map["author" := OneNode(author)]);
    assert "post" != "user" by { assert "post"[0] != "user"[0]; }
    assert Masked(rules, author) == author;
    MaskedIsClean(rules, post);
    assert "author" in ["author"];
    var u := Masked(rules, post);
    assert post.expand["author"] == OneNode(author) && Readable(rules, OneNode(author));
    assert MaskedBranch(rules, OneNode(author)) == OneNode(author);
    assert u.fields == map[] && "author" in u.expand && u.expand["author"] == OneNode(author);
    assert u.expand == map["author" := OneNode(author)];
  }

  // ---------------------------------------------------------------- what masking keeps

  lemma CleanIsReadable(rules: Rules, b: Branch)
    requires CleanBranch(rules, b)
    ensures Readable(rules, b)
  {
  }

  /** A clean node is shown as it is. */
  lemma {:induction false} CleanIsUnchanged(rules: Rules, t: NodeTree)
    requires Clean(rules, t)
    ensures Masked(rules, t) == t
    decreases t
  {
    var u := Masked(rules, t);
    KeepAll(t.fields);
    assert u.fields == t.fields;
    forall k | k in t.expand ensures Readable(rules, t.expand[k]) && MaskedBranch(rules, t.expand[k]) == t.expand[k] {
      CleanIsReadable(rules, t.expand[k]);
      match t.expand[k] {
        case OneNode(n) => CleanIsUnchanged(rules, n);
        case ManyNodes(ns) =>
          forall i | 0 <= i < |ns| ensures Masked(rules, ns[i]) == ns[i] { CleanIsUnchanged(rules, ns[i]); }
        case Plain(_) =>
      }
    }
    assert u.expand == t.expand;
  }

  /** Masking twice is masking once. */
  lemma MaskedTwice(rules: Rules, t: NodeTree)
    requires rules(t.typ).Some?
    ensures Masked(rules, Masked(rules, t)) == Masked(rules, t)
  {
    MaskedIsClean(rules, t);
    CleanIsUnchanged(rules, Masked(rules, t));
  }

  /** u shows no more than t: the same node with fewer fields and entries, and the same below. */
  predicate Shows(t: NodeTree, u: NodeTree)
    decreases u
  {
    && u.id == t.id && u.typ == t.typ
    && (forall k :: k in u.fields ==> k in t.fields && u.fields[k] == t.fields[k])
    && forall k :: k in u.expand ==> k in t.expand && ShowsBranch(t.expand[k], u.expand[k])
  }

  predicate ShowsBranch(a: Branch, b: Branch)
    decreases b
  {
    match b
    case OneNode(n) => a.OneNode? && Shows(a.n, n)
    case ManyNodes(ns) => a.ManyNodes? && |a.ns| == |ns| && forall i :: 0 <= i < |ns| ==> Shows(a.ns[i], ns[i])
    case Plain(v) => a == b
  }

  /** Of all that shows no more than t and is clean, the result shows the most: only what must go is gone. */
  lemma {:induction false} MaskedIsGreatest(rules: Rules, t: NodeTree, u: NodeTree)
    requires rules(t.typ).Some? && Shows(t, u) && Clean(rules, u)
    ensures Shows(Masked(rules, t), u)
    decreases u
  {
    var m := Masked(rules, t);
    forall k | k in u.expand ensures k in m.expand && ShowsBranch(m.expand[k], u.expand[k]) {
      assert ShowsBranch(t.expand[k], u.expand[k]) && CleanBranch(rules, u.expand[k]);
      match u.expand[k] {
        case OneNode(n) =>
          assert Shows(t.expand[k].n, n) && Clean(rules, n);
          MaskedIsGreatest(rules, t.expand[k].n, n);
        case ManyNodes(ns) =>
          var ts := t.expand[k].ns;
          forall i | 0 <= i < |ns| ensures rules(ts[i].typ).Some? && Shows(Masked(rules, ts[i]), ns[i]) {
            assert Shows(ts[i], ns[i]) && Clean(rules, ns[i]);
            MaskedIsGreatest(rules, ts[i], ns[i]);
          }
        case Plain(_) =>
      }
    }
  }

  lemma {:induction false} MaskedShowsLess(rules: Rules, t: NodeTree)
    requires rules(t.typ).Some?
    ensures Shows(t, Masked(rules, t))
    decreases t
  {
    var u := Masked(rules, t);
    forall k | k in u.expand ensures ShowsBranch(t.expand[k], u.expand[k]) {
      assert k in t.expand && u.expand[k] == MaskedBranch(rules, t.expand[k]);
      match t.expand[k] {
        case OneNode(n) => MaskedShowsLess(rules, n);
        case ManyNodes(ns) =>
          forall i | 0 <= i < |ns| ensures Shows(ns[i], MaskedAll(rules, ns)[i]) { MaskedShowsLess(rules, ns[i]); }
        case Plain(_) =>
      }
    }
  }
}
