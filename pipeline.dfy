/**
  What the index builder and the composer guarantee together, for an index loaded
  from the mirror and then used to compose a request list.
*/
module Pipeline {
  import opened Results
  import opened PathNames
  import opened MirrorTree
  import opened TemplateIndex
  import opened Composer

  /**
    Keys are lower-cased when indexed but requests are looked up as given, so a
    request with an upper-case letter always fails the composition.
  */
  lemma UppercaseRequestFails(root: Node, m: Index, args: seq<string>, i: nat)
    requires Load(Walk(root)) == Ok(m)
    requires i < |args| && !IsLowercase(args[i])
    ensures Compose(m, args).Err?
  {
    LoadKeysLowercase(Walk(root), m);
    ComposeOkIff(m, args);
  }

  /** Every name in a successful composition is the key of a template file under a `.git`-free path. */
  lemma ComposedNamesAreVisibleTemplates(root: Node, m: Index, args: seq<string>, i: nat)
    requires Load(Walk(root)) == Ok(m) && Compose(m, args).Ok?
    requires i < |args|
    ensures exists e :: e in Walk(root) && IsTemplate(e) && KeyOf(e) == args[i] && GitFree(e.path) && At(root, e.path, e.node)
  {
    ComposeOkIff(m, args);
    IndexKeysFromVisibleTemplates(root, m, args[i]);
  }
}
