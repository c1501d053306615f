/** A zip package seen as its members. The byte-level format is not
    modelled: a zip stream is its sequence of entries, and an unzipped
    working directory is a map from member path to content. */
module Zip {
  import opened TemplateTypes
  import opened Dom

  /** One zip entry, in stream order. */
  datatype Entry = Entry(name: string, content: Content)

  /** A blob holding a zip stream, with its display file name. */
  datatype Blob = Blob(filename: string, entries: seq<Entry>)

  /** A package as a directory of files; zipping it gives a blob whose
      entry order is not fixed (see Zips). */
  datatype Package = Package(filename: string, files: map<string, Content>)

  /** ZipUtils.unzip into an empty directory: every entry is written to its
      path in stream order, so a later entry overwrites an earlier one. */
  function Unzip(entries: seq<Entry>): map<string, Content>
  {
    if |entries| == 0 then map[]
    else
      var last := entries[|entries| - 1];
      Unzip(entries[..|entries| - 1])[last.name := last.content]
  }

  /** Index i holds the last entry named p. */
  predicate IsLastNamed(entries: seq<Entry>, p: string, i: int) {
    0 <= i < |entries| && entries[i].name == p
    && forall j :: i < j < |entries| ==> entries[j].name != p
  }

  /** blob is one of the zip streams of pkg: the same file name, one entry
      per file with that file's content, in some order. */
  predicate Zips(blob: Blob, pkg: Package) {
    && blob.filename == pkg.filename
    && (forall i, j :: 0 <= i < j < |blob.entries| ==> blob.entries[i].name != blob.entries[j].name)
    && (forall i :: 0 <= i < |blob.entries| ==>
          blob.entries[i].name in pkg.files && pkg.files[blob.entries[i].name] == blob.entries[i].content)
    && (forall p :: p in pkg.files ==> exists i :: 0 <= i < |blob.entries| && blob.entries[i].name == p)
  }

  /** Unzipping holds exactly the paths of the entries. */
  lemma {:induction false} UnzipKeys(entries: seq<Entry>, p: string)
    ensures p in Unzip(entries) <==> exists i :: 0 <= i < |entries| && entries[i].name == p
  {
    if |entries| > 0 {
      var pre := entries[..|entries| - 1];
      UnzipKeys(pre, p);
      if p in Unzip(pre) {
        var i :| 0 <= i < |pre| && pre[i].name == p;
        assert entries[i].name == p;
      }
      if exists i :: 0 <= i < |entries| && entries[i].name == p {
        var i :| 0 <= i < |entries| && entries[i].name == p;
        if i < |pre| { assert pre[i].name == p; }
      }
    }
  }

  /** Each path holds the content of the last entry of that path. */
  lemma {:induction false} UnzipLastWins(entries: seq<Entry>, p: string, i: int)
    requires IsLastNamed(entries, p, i)
    ensures p in Unzip(entries) && Unzip(entries)[p] == entries[i].content
  {
    var pre := entries[..|entries| - 1];
    if i < |entries| - 1 {
      assert IsLastNamed(pre, p, i) by {
        assert forall j :: i < j < |pre| ==> pre[j] == entries[j];
      }
      UnzipLastWins(pre, p, i);
    }
  }

  /** Unzipping any zip stream of a package gives back its files. */
  lemma UnzipZips(blob: Blob, pkg: Package)
    requires Zips(blob, pkg)
    ensures Unzip(blob.entries) == pkg.files
  {
    var es := blob.entries;
    forall p | p in pkg.files
      ensures p in Unzip(es) && Unzip(es)[p] == pkg.files[p]
    {
      var i :| 0 <= i < |es| && es[i].name == p;
      UnzipLastWins(es, p, i);
    }
    forall p | p in Unzip(es)
      ensures p in pkg.files
    {
      UnzipKeys(es, p);
    }
  }
}
