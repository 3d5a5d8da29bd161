/**
 * The changed-file filter: it takes the entries of the diff between the
 * previous commit and HEAD, keeps those under "stacks/" and those under
 * "templates/", and for each kept entry either records its path in a
 * to-delete file (a deleted file) or copies it into a staging directory.
 */
module ChangedFilesFilter {
  import LinterFilesFilter

  /** One entry of a commit diff: the path on the old side and whether the file was deleted. */
  datatype DiffEntry = DiffEntry(aPath: string, deletedFile: bool)

  /** `list(filter(lambda x: x.a_path.startswith(prefix), diff))` */
  function Select(diff: seq<DiffEntry>, prefix: string): (r: seq<DiffEntry>)
    ensures |r| <= |diff|
    ensures forall e :: e in r <==> e in diff && prefix <= e.aPath
  {
    if diff == [] then []
    else if prefix <= diff[0].aPath then [diff[0]] + Select(diff[1..], prefix)
    else Select(diff[1..], prefix)
  }

  /** The filter keeps diff order: selecting from a concatenation selects from each part in turn. */
  lemma {:induction false} SelectAppend(a: seq<DiffEntry>, b: seq<DiffEntry>, prefix: string)
    ensures Select(a + b, prefix) == Select(a, prefix) + Select(b, prefix)
  {
    if a == [] {
      assert a + b == b;
    } else {
      assert (a + b)[0] == a[0] && (a + b)[1..] == a[1..] + b;
      SelectAppend(a[1..], b, prefix);
      if prefix <= a[0].aPath {
        assert Select(a + b, prefix) == [a[0]] + Select(a[1..] + b, prefix);
      } else {
        assert Select(a + b, prefix) == Select(a[1..] + b, prefix);
      }
    }
  }

  /** No entry is both a stack and a template: the two prefixes differ at their first character. */
  lemma StacksAndTemplatesDisjoint(diff: seq<DiffEntry>, e: DiffEntry)
    requires e in Select(diff, "stacks/")
    ensures e !in Select(diff, "templates/")
  {
    assert e.aPath[0] == "stacks/"[0];
  }

  /** One effect of `createChangeSets` on an entry. */
  datatype Action =
    | WriteDeleted(line: string)      // deletedFile.write(line)
    | CopyFile(src: string, dst: string)  // shutil.copy2(src, dst), the directories created first

  /** The effect for one entry: a deleted file's path is recorded as a line, any other file is copied under the base path. */
  function EntryAction(basePath: string, e: DiffEntry): (a: Action)
    ensures e.deletedFile <==> a.WriteDeleted?
    ensures a.WriteDeleted? ==> a.line == e.aPath + "\n"
    ensures a.CopyFile? ==> a.src == e.aPath && a.dst == basePath + "/" + e.aPath
  {
    if e.deletedFile then WriteDeleted(e.aPath + "\n") else CopyFile(e.aPath, basePath + "/" + e.aPath)
  }

  /** The effects of a batch of entries: one per entry, in entry order. */
  function EntryActions(basePath: string, items: seq<DiffEntry>): (r: seq<Action>)
    ensures |r| == |items|
    ensures forall i :: 0 <= i < |items| ==> r[i] == EntryAction(basePath, items[i])
  {
    seq(|items|, i requires 0 <= i < |items| => EntryAction(basePath, items[i]))
  }

  /** The paths of the deleted entries, in order. */
  function DeletedPaths(items: seq<DiffEntry>): (r: seq<string>)
    ensures |r| <= |items|
    ensures forall p :: p in r <==> exists e :: e in items && e.deletedFile && e.aPath == p
  {
    if items == [] then []
    else if items[0].deletedFile then [items[0].aPath] + DeletedPaths(items[1..])
    else DeletedPaths(items[1..])
  }

  /** The text the delete file receives: each deleted entry's path followed by a newline, in entry order. */
  function DeletedText(items: seq<DiffEntry>): string {
    if items == [] then ""
    else (if items[0].deletedFile then items[0].aPath + "\n" else "") + DeletedText(items[1..])
  }

  /** Reading the delete file back line by line gives the deleted paths in entry order, then the empty last piece. */
  lemma {:induction false} DeletedTextLines(items: seq<DiffEntry>)
    requires forall e :: e in items ==> '\n' !in e.aPath
    ensures LinterFilesFilter.SplitLines(DeletedText(items)) == DeletedPaths(items) + [""]
  {
    DeletedTextJoins(items);
    forall i | 0 <= i < |DeletedPaths(items) + [""]| ensures '\n' !in (DeletedPaths(items) + [""])[i] {
      if i < |DeletedPaths(items)| {
        assert (DeletedPaths(items) + [""])[i] in DeletedPaths(items);
      }
    }
    LinterFilesFilter.SplitJoinLines(DeletedPaths(items) + [""]);
  }

  lemma {:induction false} DeletedTextJoins(items: seq<DiffEntry>)
    ensures DeletedText(items) == LinterFilesFilter.JoinLines(DeletedPaths(items) + [""])
  {
    if items != [] {
      DeletedTextJoins(items[1..]);
      if items[0].deletedFile {
        var rest := DeletedPaths(items[1..]) + [""];
        assert DeletedPaths(items) + [""] == [items[0].aPath] + rest;
        assert ([items[0].aPath] + rest)[1..] == rest;
        assert (items[0].aPath + "\n") + LinterFilesFilter.JoinLines(rest) == items[0].aPath + "\n" + LinterFilesFilter.JoinLines(rest);
      } else {
        assert "" + DeletedText(items[1..]) == DeletedText(items[1..]);
      }
    }
  }

  /** One more entry: its effect follows the earlier entries' effects. */
  lemma EntryActionsStep(basePath: string, items: seq<DiffEntry>, i: nat)
    requires i < |items|
    ensures EntryActions(basePath, items[..i + 1]) == EntryActions(basePath, items[..i]) + [EntryAction(basePath, items[i])]
  {
    var r := EntryActions(basePath, items[..i + 1]);
    assert |r| == i + 1;
    assert forall k :: 0 <= k < i ==> r[k] == EntryActions(basePath, items[..i])[k];
  }

  /** The delete-file text of the entries from `i` on is the entry at `i`'s line, if deleted, then the rest's. */
  lemma DeletedTextStep(items: seq<DiffEntry>, i: nat)
    requires i < |items|
    ensures DeletedText(items[i..]) == (if items[i].deletedFile then items[i].aPath + "\n" else "") + DeletedText(items[i + 1..])
  {
    assert items[i..][0] == items[i] && items[i..][1..] == items[i + 1..];
  }

  /**
   * `createChangeSets(items, basePath, deletedFile)`: one effect per entry,
   * in entry order, and the text written to the delete file.
   */
  method CreateChangeSets(items: seq<DiffEntry>, basePath: string) returns (actions: seq<Action>, written: string)
    ensures actions == EntryActions(basePath, items)
    ensures written == DeletedText(items)
  {
    actions, written := [], "";
    assert items[0..] == items;
    assert EntryActions(basePath, items[..0]) == [];
    for i := 0 to |items|
      invariant actions == EntryActions(basePath, items[..i])
      invariant written + DeletedText(items[i..]) == DeletedText(items)
    {
      var item := items[i];
      EntryActionsStep(basePath, items, i);
      DeletedTextStep(items, i);
      if item.deletedFile {
        actions := actions + [WriteDeleted(item.aPath + "\n")];
        written := written + (item.aPath + "\n");
      } else {
        var filePath := basePath + "/" + item.aPath;
        actions := actions + [CopyFile(item.aPath, filePath)];
        assert "" + DeletedText(items[i + 1..]) == DeletedText(items[i + 1..]);
      }
    }
    assert items[..|items|] == items && items[|items|..] == [];
    assert written + "" == written;
  }

  /**
   * The script: templates are handled first (staged under "templates-sync",
   * deletions listed in templates-to-delete.txt), then stacks (under
   * "stacks-sync", listed in stacks-to-delete.txt).
   */
  method FilterChangedFiles(diff: seq<DiffEntry>)
    returns (actions: seq<Action>, templatesToDelete: string, stacksToDelete: string)
    ensures actions == EntryActions("templates-sync", Select(diff, "templates/")) + EntryActions("stacks-sync", Select(diff, "stacks/"))
    ensures templatesToDelete == DeletedText(Select(diff, "templates/"))
    ensures stacksToDelete == DeletedText(Select(diff, "stacks/"))
  {
    var stacks := Select(diff, "stacks/");
    var templates := Select(diff, "templates/");
    var templateActions, stackActions;
    templateActions, templatesToDelete := CreateChangeSets(templates, "templates-sync");
    stackActions, stacksToDelete := CreateChangeSets(stacks, "stacks-sync");
    actions := templateActions + stackActions;
  }
}
