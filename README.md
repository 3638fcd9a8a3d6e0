# git-ignore template pipeline, modelled in Dafny

`git-ignore` writes a `.gitignore` file by joining named templates taken from a
local mirror of a template collection. This project models the two core steps of
`src/main.rs` and proves what they promise:

- **Index builder** (`load_gitignore`, with `is_git` and
  `get_file_name_without_extension`). It walks the mirror depth-first and skips
  every `.git` or `.github` entry together with its subtree. It keeps the
  non-directory entries whose extension is exactly `gitignore` and stores each
  one's contents under its lower-cased file stem. A later file overwrites an
  earlier one with the same key. The first walk error or unreadable template
  makes the whole load fail.
- **Composer** (`gen_gitignore`). It goes through the requested names in order.
  For each one it appends a `'\n'` separator (except before the first), then the
  header `### <name> ###\n`, then the stored body unchanged. A name missing from
  the index aborts the composition with that name, and nothing is returned.

Files, one module each:

- `results.dfy` (`Results`): `Option`, `Result` and the three errors: `NotFound(name)`, `WalkFailed` and `ReadFailed`.
- `path_names.dfy` (`PathNames`): the prune test and Rust's `Path::extension` and `Path::file_stem` on one file name. A name with a leading dot such as `.gitignore` has no extension. Also ASCII lower-casing.
- `mirror_tree.dfy` (`MirrorTree`): the mirror as a tree `Node = File(name, contents) | Dir(name, children) | Fault`, and the pre-order walk with pruning. The walk yields one `Entry(path, node)` per visited node. A directory's children are listed in a given order, standing for the filesystem's order. `Fault` stands for an error that the walker reports at that position.
- `template_index.dfy` (`TemplateIndex`): the fold of the walk into a `map<string, string>`. It has a specification function `Load` and the imperative `LoadGitignore`, whose `for` loop updates the map.
- `composer.dfy` (`Composer`): the specification `Compose` and the imperative `GenGitignore`, whose `for` loop appends to a string buffer and returns early on a missing name.
- `pipeline.dfy` (`Pipeline`): facts that need both halves. One is the key-casing mismatch: keys are lower-cased, but lookups use the request as given.

Three behaviours of the code worth noting:

- The error for an unreadable template carries no file name. The code passes the bare I/O error up with `?`.
- Any non-directory entry is a candidate, not only regular files. A symbolic link is not followed by the walk and is read like a file.
- The separator is one `'\n'`. It reads as a blank line only when the previous body ends in a newline.

## Model

| member | source | states |
|---|---|---|
| `PathNames.IsGit` | src/main.rs:8-10 | the pruned names `.git` and `.github` are dot-names with no extension whose stem is the whole name, so a pruned entry is never a template |
| `PathNames.Extension` | src/main.rs:50 | no extension without a file name; with none, no dot follows the first character; otherwise the name ends in "." + the extension, something precedes that dot, and the extension holds no dot |
| `PathNames.FileStem` | src/main.rs:12-14 | a stem exists iff the entry has a file name; with no extension the stem is the whole name; otherwise the name is stem + "." + extension with a non-empty stem |
| `PathNames.TemplateExtensionIff` | src/main.rs:50 | the extension is exactly `gitignore` iff the name ends in `.gitignore` with at least one character before it, and then the stem is that prefix |
| `PathNames.ToLower` | src/main.rs:59 | the key has the stem's length, maps each upper-case ASCII letter to its lower-case letter, keeps every other character, contains no upper-case letter, and leaves an already lower-case stem unchanged |
| `PathNames.PythonKeyExample` | src/main.rs:59 | `Python.gitignore` is a template with key `python` |
| `PathNames.CppKeyExample` | src/main.rs:59 | `C++.gitignore` is a template with key `c++` |
| `PathNames.DotfileExample` | src/main.rs:50 | `.gitignore` itself has no extension, so it is not a template |
| `MirrorTree.Walk` | src/main.rs:47 | the walk of the mirror is empty iff the root itself is pruned, and otherwise starts with the root |
| `MirrorTree.WalkFrom` | src/main.rs:47 | the walk of a subtree is empty iff its top entry is `.git`/`.github`, otherwise visits that entry before anything beneath it, and keeps every entry under the parent's path |
| `MirrorTree.WalkAvoidsGit` | src/main.rs:8-10 | no visited entry has a `.git` or `.github` component anywhere in its path, at any depth |
| `MirrorTree.WalkSound` | src/main.rs:47 | every visited non-error entry is a node of the tree found at the path it carries |
| `MirrorTree.WalkComplete` | src/main.rs:47 | every node of the tree whose path has no `.git`/`.github` component is visited |
| `TemplateIndex.Step` | src/main.rs:49-59 | one entry fails exactly on a walk error or an unreadable template; a non-template leaves the map unchanged; a template inserts its lower-cased stem with its contents and changes no other key |
| `TemplateIndex.LoadGitignore` | src/main.rs:43-63 | the loop over the walk returns exactly the specified load of the mirror tree |
| `TemplateIndex.LoadFromOkIff` | src/main.rs:49-59 | the load succeeds iff no walk entry errors and every template is readable; there is never a partial index |
| `TemplateIndex.LoadFromFirstFailure` | src/main.rs:49-59 | on failure the error is that of the first failing entry in walk order |
| `TemplateIndex.LoadFromKeys` | src/main.rs:50-59 | a key is in the index iff some visited template yields it, so directories and other files contribute nothing |
| `TemplateIndex.LoadFromLastWins` | src/main.rs:59 | for duplicate keys the index holds the contents of the template visited last |
| `TemplateIndex.LoadFromUntouched` | src/main.rs:59 | a key that no later template yields keeps its earlier body: insertion changes nothing else |
| `TemplateIndex.LoadKeysLowercase` | src/main.rs:59 | every key of a loaded index is lower case |
| `TemplateIndex.IndexKeysFromVisibleTemplates` | src/main.rs:47-59 | every indexed key comes from a template file of the tree whose path has no `.git`/`.github` component |
| `TemplateIndex.VisibleTemplatesIndexed` | src/main.rs:47-59 | every template file of the tree under a `.git`-free path puts its key into a loaded index |
| `Composer.GenGitignore` | src/main.rs:66-82 | the loop with its early return yields exactly the specified composition |
| `Composer.ComposeOkIff` | src/main.rs:69-81 | composition succeeds iff every requested name is in the index |
| `Composer.ComposeReportsFirstMissing` | src/main.rs:69-78 | when some name is missing, the result is the error naming the first missing name in list order, with no output |
| `Composer.ComposeAllFound` | src/main.rs:69-76 | when all names are found, the output is the sections (header + verbatim body) in request order, joined by `'\n'`; duplicates appear twice |
| `Composer.ComposeAppend` | src/main.rs:71-75 | composing `a + b` gives the output for `a`, one `'\n'` and the output for `b` |
| `Composer.ComposeErrorPrefix` | src/main.rs:76-78 | a failure within the first part of a request list is the failure of the whole list |
| `Composer.ComposeEmpty` | src/main.rs:67-81 | the empty request list gives `Ok("")` |
| `Composer.ComposeSingle` | src/main.rs:71-75 | one found name gives its header and body with no leading separator |
| `Composer.ComposeTwoExample` | src/main.rs:69-76 | `["a", "b"]` over `a -> "X\n"`, `b -> "Y\n"` gives `### a ###\nX\n\n### b ###\nY\n` |
| `Composer.ComposeMissingExample` | src/main.rs:76-78 | `["node", "doesnotexist", "rust"]` fails with `doesnotexist` and yields no `node` section |
| `Pipeline.UppercaseRequestFails` | src/main.rs:59-70 | over a loaded index, a request containing an upper-case letter makes the composition fail |
| `Pipeline.ComposedNamesAreVisibleTemplates` | src/main.rs:47-70 | every name of a successful composition is the key of a template file under a `.git`-free path |

## Left out

- `init_gitignore` (src/main.rs:21-40) is not modelled. It checks whether the mirror exists, creates the directory and spawns `git clone`, panicking if the clone cannot start. All of that is filesystem and process I/O. The model starts from the mirror tree as it exists after that step.
- The real directory reads of `WalkDir` are not modelled. The tree and each directory's child order are inputs, because the real order depends on the filesystem.
- Which entry is the root is not distinguished: the root's name is tested like any other name. For a root given as `/` or `..`, Rust's `file_name` differs from the walker's entry name; the model does not capture that.
- File names that are not valid UTF-8 are not modelled. Names are strings, so the `to_str` failure branch of `get_file_name_without_extension` never arises. The model keeps the branch where the stem is missing (`""` or `..`).
- Lower-casing covers ASCII only, not the full Unicode `to_lowercase`.
- Error values carry no message text and no path. The wording of the `anyhow` messages is left out, as is the path inside a `walkdir` error.
- CLI handling is not modelled: `parse_args`, `help`, the completion scripts and `--register` (src/main.rs:84-209). They print and spawn processes.
- `main` is not modelled: its printing, its `unwrap` panics and the trailing newline added by `println!` (src/main.rs:211-242).
- The `--list` output is not modelled, because its order follows `HashMap` iteration and is unspecified.
- src/config.rs is not part of this model. It only asks the platform for its data directory and spawns `git config --get`. A non-empty override replaces the default path without trimming.
