/** The themes directory as a value: what `exists()`, `iterdir()`, `glob()` and `Image.open`
    would observe, given instead of read. */
module FileSystem {
  import opened Outcomes

  /** The pixels of one decoded frame; pixel work is not modelled, so a frame is a token. */
  datatype Frame = Frame(token: nat)

  /** One frame of a decoded image and the `duration` entry Pillow reports for it, if any. */
  datatype SourceFrame = SourceFrame(content: Frame, duration: Option<nat>)

  /** A decoded image has at least one frame (`n_frames >= 1`). */
  type Frames = s: seq<SourceFrame> | |s| > 0 witness [SourceFrame(Frame(0), None)]

  datatype Image = Image(width: nat, height: nat, frames: Frames)

  datatype File = File(name: string, image: Image)

  /** An entry of the themes root: a sub-directory of files, or anything else. */
  datatype Entry = Directory(name: string, files: seq<File>) | PlainFile(name: string)

  type Root = seq<Entry>

  /** Names are unique within one directory. */
  predicate DistinctNames(root: Root)
  {
    forall i, j :: 0 <= i < j < |root| ==> root[i].name != root[j].name
  }

  /** The image at `name` in a directory, when such a file exists (name match is exact). */
  function FindFile(files: seq<File>, name: string): Option<Image>
  {
    if files == [] then None
    else if files[0].name == name then Some(files[0].image)
    else FindFile(files[1..], name)
  }

  /** `FindFile` finds a file exactly when one has that name, and returns the image of the first. */
  lemma {:induction false} FindFileSpec(files: seq<File>, name: string)
    ensures FindFile(files, name).None? <==> forall i :: 0 <= i < |files| ==> files[i].name != name
    ensures FindFile(files, name).Some? ==>
      exists i :: 0 <= i < |files| && files[i] == File(name, FindFile(files, name).value) &&
        forall j :: 0 <= j < i ==> files[j].name != name
  {
    if files != [] && files[0].name != name {
      FindFileSpec(files[1..], name);
      assert forall i :: 1 <= i < |files| ==> files[i] == files[1..][i - 1];
      if FindFile(files, name).Some? {
        var k :| 0 <= k < |files[1..]| && files[1..][k] == File(name, FindFile(files, name).value) &&
          forall j :: 0 <= j < k ==> files[1..][j].name != name;
        assert files[k + 1] == files[1..][k];
      }
    }
  }

  /** The entry of the themes root called `name`, when one exists. */
  function FindEntry(root: Root, name: string): (r: Option<Entry>)
    ensures r.None? <==> forall i :: 0 <= i < |root| ==> root[i].name != name
    ensures r.Some? ==> exists i :: 0 <= i < |root| && root[i] == r.value && r.value.name == name
  {
    if root == [] then None
    else if root[0].name == name then Some(root[0])
    else
      var r := FindEntry(root[1..], name);
      assert forall i :: 1 <= i < |root| ==> root[i] == root[1..][i - 1];
      r
  }

  /** The files under an entry of the themes root; a path below a non-directory has none. */
  function FilesOf(e: Option<Entry>): seq<File>
  {
    if e.Some? && e.value.Directory? then e.value.files else []
  }
}
