/** The source-folder list kept by the class-based variants, and the checks
    `process_images` makes before it collects anything. */
module SourceFolders {
  import opened Results
  import opened Text

  /** `add_folder`: a non-empty folder not yet in the list is appended;
      anything else leaves the list as it is. */
  function AddFolder(folders: seq<string>, folder: string): (r: seq<string>)
    ensures forall x :: x in r <==> x in folders || (x == folder && folder != "")
    ensures |r| == if folder != "" && folder !in folders then |folders| + 1 else |folders|
    ensures r[..|folders|] == folders
  {
    if folder != "" && folder !in folders then folders + [folder] else folders
  }

  /** `remove_folder`: an in-range index drops exactly that entry, keeping
      the others in order; any other index changes nothing. */
  function RemoveFolder(folders: seq<string>, index: int): (r: seq<string>)
    ensures 0 <= index < |folders| ==> |r| == |folders| - 1
    ensures 0 <= index < |folders| ==>
      forall j :: 0 <= j < |r| ==> r[j] == (if j < index then folders[j] else folders[j + 1])
    ensures !(0 <= index < |folders|) ==> r == folders
  {
    if 0 <= index < |folders| then folders[..index] + folders[index + 1..] else folders
  }

  /** The list never holds a folder twice. */
  lemma AddKeepsDistinct(folders: seq<string>, folder: string)
    requires Distinct(folders)
    ensures Distinct(AddFolder(folders, folder))
  {
  }

  lemma RemoveKeepsDistinct(folders: seq<string>, index: int)
    requires Distinct(folders)
    ensures Distinct(RemoveFolder(folders, index))
  {
    var r := RemoveFolder(folders, index);
    if 0 <= index < |folders| {
      forall i, j | 0 <= i < j < |r| ensures r[i] != r[j] {
        var i' := if i < index then i else i + 1;
        var j' := if j < index then j else j + 1;
        assert r[i] == folders[i'] && r[j] == folders[j'];
      }
    }
  }

  /** Removing the entry just added restores the list. */
  lemma RemoveUndoesAdd(folders: seq<string>, folder: string)
    requires folder != "" && folder !in folders
    ensures RemoveFolder(AddFolder(folders, folder), |folders|) == folders
  {
    var r := RemoveFolder(AddFolder(folders, folder), |folders|);
    assert |r| == |folders|;
    forall j | 0 <= j < |r| ensures r[j] == folders[j] {
      assert AddFolder(folders, folder)[j] == folders[j];
    }
  }

  /** Adding a folder already present, or an empty one, is idempotent. */
  lemma AddIdempotent(folders: seq<string>, folder: string)
    ensures AddFolder(AddFolder(folders, folder), folder) == AddFolder(folders, folder)
  {
  }

  /** The configuration `process_images` reads. */
  datatype Config = Config(sourceFolders: seq<string>, targetFolder: string)

  datatype ConfigError = NoSourceFolders | NoTargetFolder

  /** The two checks, in order: the source list first, then the target. */
  function CheckConfig(c: Config): (r: Option<ConfigError>)
    ensures r == Some(NoSourceFolders) <==> |c.sourceFolders| == 0
    ensures r == Some(NoTargetFolder) <==> |c.sourceFolders| > 0 && c.targetFolder == ""
    ensures r.None? <==> |c.sourceFolders| > 0 && c.targetFolder != ""
  {
    if |c.sourceFolders| == 0 then Some(NoSourceFolders)
    else if c.targetFolder == "" then Some(NoTargetFolder)
    else None
  }
}
