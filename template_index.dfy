/**
  load_gitignore: fold the walk of the mirror into a map from template key
  (lower-cased file stem) to template body. A later file with the same key
  overwrites an earlier one; the first walk error or unreadable template aborts
  the whole load.
*/
module TemplateIndex {
  import opened Results
  import opened PathNames
  import opened MirrorTree

  type Index = map<string, string>

  /** A non-directory entry whose extension is exactly the template extension, and which has a stem. */
  predicate IsTemplate(e: Entry) {
    e.node.File? && Extension(e.node.name) == Some(TemplateExtension) && FileStem(e.node.name).Some?
  }

  /** The key a template entry is stored under: its stem, lower-cased. */
  function KeyOf(e: Entry): string
    requires IsTemplate(e)
  {
    ToLower(FileStem(e.node.name).value)
  }

  /** The entries that abort the load: a walk error, or a template whose text cannot be read. */
  predicate Fails(e: Entry) {
    e.node.Fault? || (IsTemplate(e) && e.node.contents.None?)
  }

  /** The effect of one walk entry on the index being built. */
  function Step(acc: Index, e: Entry): (r: Result<Index>)
    ensures r.Err? <==> Fails(e)
    ensures r.Ok? && !IsTemplate(e) ==> r.value == acc
    ensures r.Ok? && IsTemplate(e) ==>
              r.value.Keys == acc.Keys + {KeyOf(e)} &&
              r.value[KeyOf(e)] == e.node.contents.value &&
              forall k :: k in acc && k != KeyOf(e) ==> r.value[k] == acc[k]
  {
    match e.node
    case Fault => Err(WalkFailed)
    case Dir(_, _) => Ok(acc)
    case File(name, contents) =>
      if Extension(name) != Some(TemplateExtension) then Ok(acc)
      else match FileStem(name)
        case None => Ok(acc)
        case Some(stem) =>
          match contents
          case None => Err(ReadFailed)
          case Some(text) => Ok(acc[ToLower(stem) := text])
  }

  /** The load continued from the partial index `acc` over the remaining entries. */
  function LoadFrom(acc: Index, entries: seq<Entry>): Result<Index>
    decreases |entries|
  {
    if entries == [] then Ok(acc)
    else match Step(acc, entries[0])
      case Err(e) => Err(e)
      case Ok(next) => LoadFrom(next, entries[1..])
  }

  /** The specification of the load over a walk, starting from the empty index. */
  function Load(entries: seq<Entry>): Result<Index> {
    LoadFrom(map[], entries)
  }

  /** load_gitignore, after the mirror is known to exist: one pass over the walk of `root`. */
  method LoadGitignore(root: Node) returns (r: Result<Index>)
    ensures r == Load(Walk(root))
  {
    var entries := Walk(root);
    var data: Index := map[];
    for i := 0 to |entries|
      invariant LoadFrom(data, entries[i..]) == Load(entries)
    {
      var entry := entries[i];
      assert entries[i..][0] == entry && entries[i..][1..] == entries[i + 1..];
      if entry.node.Fault? {
        return Err(WalkFailed);
      }
      if entry.node.Dir? || Extension(entry.node.name) != Some(TemplateExtension) {
        continue;
      }
      var stem := FileStem(entry.node.name);
      if stem.None? {
        continue;
      }
      var key := ToLower(stem.value);
      if entry.node.contents.None? {
        return Err(ReadFailed);
      }
      data := data[key := entry.node.contents.value];
    }
    assert entries[|entries|..] == [];
    return Ok(data);
  }

  /** The load succeeds exactly when no entry fails: never a partial index. */
  lemma {:induction false} LoadFromOkIff(acc: Index, entries: seq<Entry>)
    ensures LoadFrom(acc, entries).Ok? <==> forall i :: 0 <= i < |entries| ==> !Fails(entries[i])
    decreases |entries|
  {
    if entries != [] {
      var s := Step(acc, entries[0]);
      if s.Ok? {
        LoadFromOkIff(s.value, entries[1..]);
        assert forall i :: 1 <= i < |entries| ==> entries[i] == entries[1..][i - 1];
      }
    }
  }

  /** On failure the load reports the error of the first failing entry in walk order. */
  lemma {:induction false} LoadFromFirstFailure(acc: Index, entries: seq<Entry>, k: nat)
    requires k < |entries| && Fails(entries[k])
    requires forall i :: 0 <= i < k ==> !Fails(entries[i])
    ensures LoadFrom(acc, entries) == Err(if entries[k].node.Fault? then WalkFailed else ReadFailed)
    decreases |entries|
  {
    var s := Step(acc, entries[0]);
    if k > 0 {
      assert entries[1..][k - 1] == entries[k];
      LoadFromFirstFailure(s.value, entries[1..], k - 1);
    }
  }

  /** A key is in the result exactly when it was in `acc` or some template entry yields it. */
  lemma {:induction false} LoadFromKeys(acc: Index, entries: seq<Entry>, m: Index)
    requires LoadFrom(acc, entries) == Ok(m)
    ensures forall k :: k in m <==>
              (k in acc || exists i :: 0 <= i < |entries| && IsTemplate(entries[i]) && KeyOf(entries[i]) == k)
    decreases |entries|
  {
    if entries != [] {
      var next := Step(acc, entries[0]).value;
      LoadFromKeys(next, entries[1..], m);
      forall k | k in m
        ensures k in acc || exists i :: 0 <= i < |entries| && IsTemplate(entries[i]) && KeyOf(entries[i]) == k
      {
        if k !in next {
        } else if k !in acc {
          assert IsTemplate(entries[0]) && KeyOf(entries[0]) == k;
        }
        if exists i :: 0 <= i < |entries[1..]| && IsTemplate(entries[1..][i]) && KeyOf(entries[1..][i]) == k {
          var i :| 0 <= i < |entries[1..]| && IsTemplate(entries[1..][i]) && KeyOf(entries[1..][i]) == k;
          assert entries[i + 1] == entries[1..][i];
        }
      }
      forall k, i | 0 <= i < |entries| && IsTemplate(entries[i]) && KeyOf(entries[i]) == k
        ensures k in m
      {
        if i > 0 {
          assert entries[1..][i - 1] == entries[i];
        }
      }
    }
  }

  /** The template entry visited last among those with a given key supplies that key's body. */
  lemma {:induction false} LoadFromLastWins(acc: Index, entries: seq<Entry>, m: Index, i: nat)
    requires LoadFrom(acc, entries) == Ok(m)
    requires i < |entries| && IsTemplate(entries[i])
    requires forall j :: i < j < |entries| && IsTemplate(entries[j]) ==> KeyOf(entries[j]) != KeyOf(entries[i])
    ensures KeyOf(entries[i]) in m && entries[i].node.contents == Some(m[KeyOf(entries[i])])
    decreases |entries|
  {
    var next := Step(acc, entries[0]).value;
    forall j | 0 <= j < |entries[1..]| ensures entries[1..][j] == entries[j + 1] { }
    if i == 0 {
      LoadFromUntouched(next, entries[1..], m, KeyOf(entries[0]));
    } else {
      LoadFromLastWins(next, entries[1..], m, i - 1);
    }
  }

  /** A key no template entry yields keeps the body it had in `acc`: insertion changes nothing else. */
  lemma {:induction false} LoadFromUntouched(acc: Index, entries: seq<Entry>, m: Index, k: string)
    requires LoadFrom(acc, entries) == Ok(m)
    requires k in acc
    requires forall j :: 0 <= j < |entries| && IsTemplate(entries[j]) ==> KeyOf(entries[j]) != k
    ensures k in m && m[k] == acc[k]
    decreases |entries|
  {
    if entries != [] {
      var next := Step(acc, entries[0]).value;
      forall j | 0 <= j < |entries[1..]| ensures entries[1..][j] == entries[j + 1] { }
      LoadFromUntouched(next, entries[1..], m, k);
    }
  }

  /** Every key of a loaded index is lower case, so lookups with an upper-case letter never hit. */
  lemma LoadKeysLowercase(entries: seq<Entry>, m: Index)
    requires Load(entries) == Ok(m)
    ensures forall k :: k in m ==> IsLowercase(k)
  {
    LoadFromKeys(map[], entries, m);
  }

  /** An index loaded from the mirror only holds keys of templates under `.git`-free paths of the tree. */
  lemma IndexKeysFromVisibleTemplates(root: Node, m: Index, k: string)
    requires Load(Walk(root)) == Ok(m) && k in m
    ensures exists e :: e in Walk(root) && IsTemplate(e) && KeyOf(e) == k && GitFree(e.path) && At(root, e.path, e.node)
  {
    var entries := Walk(root);
    LoadFromKeys(map[], entries, m);
    var i :| 0 <= i < |entries| && IsTemplate(entries[i]) && KeyOf(entries[i]) == k;
    WalkAvoidsGit(root, entries[i]);
    WalkSound(root, entries[i]);
  }

  /** Conversely, every template file under a `.git`-free path contributes its key to a loaded index. */
  lemma VisibleTemplatesIndexed(root: Node, path: seq<string>, f: Node, m: Index)
    requires Load(Walk(root)) == Ok(m)
    requires At(root, path, f) && GitFree(path) && IsTemplate(Entry(path, f))
    ensures KeyOf(Entry(path, f)) in m
  {
    var entries := Walk(root);
    WalkComplete(root, path, f);
    var i :| 0 <= i < |entries| && entries[i] == Entry(path, f);
    LoadFromKeys(map[], entries, m);
  }
}
