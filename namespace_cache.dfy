/**
 * The namespace manifest of src/NamespaceCache.php. The cache holds an ordered
 * namespace => folder array and writes it as a PHP file that returns the array:
 * `<?php return [` then one `"<json namespace>"=>"<folder>"` pair per entry,
 * then `];`. A `,\n` separator follows an entry only when its folder differs
 * from the folder of the array's last entry (a value comparison), so a
 * non-last entry that shares the last entry's folder loses its comma.
 *
 * The filesystem is an explicit `Disk` object mapping paths to file contents.
 */
module NamespaceCaching {
  import opened Wrappers
  import opened Text
  import Json

  /** One namespace => folder pair of the cached array, in the array's iteration order. */
  datatype Entry = Entry(namespace: string, folder: string)

  /**
   * One rendered pair: the namespace as a JSON string, `=>`, then the folder
   * between double quotes, not escaped. It starts and ends with a double quote
   * and holds at least six characters besides the folder.
   */
  function EntryText(e: Entry): (r: string)
    ensures |r| >= |e.folder| + 6
    ensures r[0] == '"' && r[|r| - 1] == '"'
  {
    Json.EncodeString(e.namespace) + "=>" + "\"" + e.folder + "\""
  }

  /** `end($this->namespaces)`: the last entry's folder, or nothing (PHP's `false`) for an empty array. */
  function LastFolder(entries: seq<Entry>): Option<string>
  {
    if entries == [] then None else Some(entries[|entries| - 1].folder)
  }

  /** `",\n"` unless the entry's folder is identical (`!==` fails) to the last entry's folder. */
  function Separator(e: Entry, last: Option<string>): string
  {
    if Some(e.folder) != last then ",\n" else ""
  }

  /** The text the loop has accumulated after rendering the given entries, compared against `last`. */
  function Rendered(entries: seq<Entry>, last: Option<string>): string
  {
    if entries == [] then ""
    else
      var e := entries[|entries| - 1];
      Rendered(entries[..|entries| - 1], last) + EntryText(e) + Separator(e, last)
  }

  /**
   * The string `createFileContent` returns: empty for an empty array, else
   * ending with the last pair's text, with no separator after it; as long as
   * the pairs plus two characters per separator written.
   */
  function FileContent(entries: seq<Entry>): (r: string)
    ensures entries == [] ==> r == []
    ensures entries != [] ==> var t := EntryText(entries[|entries| - 1]);
                              |t| <= |r| && r[|r| - |t|..] == t
    ensures |r| == SumLen(Texts(entries)) + 2 * Separated(entries, LastFolder(entries))
  {
    var last := LastFolder(entries);
    RenderedLength(entries, last);
    if entries == [] then Rendered(entries, last)
    else
      LastPairEnds(entries, last);
      Rendered(entries, last)
  }

  /** Compared against the last entry's own folder, the last pair gets no separator and ends the text. */
  lemma LastPairEnds(entries: seq<Entry>, last: Option<string>)
    requires entries != [] && last == Some(entries[|entries| - 1].folder)
    ensures var r := Rendered(entries, last);
            var t := EntryText(entries[|entries| - 1]);
            |t| <= |r| && r[|r| - |t|..] == t
  {
    var r := Rendered(entries, last);
    var t := EntryText(entries[|entries| - 1]);
    assert r == Rendered(entries[..|entries| - 1], last) + t;
  }

  /**
   * The text `create` writes: `<?php return [`, the content, then `];`, so an
   * empty array gives a manifest returning `[]`.
   */
  function ManifestText(entries: seq<Entry>): (r: string)
    ensures |r| == |FileContent(entries)| + 16
    ensures r[..14] == "<?php return [" && r[14..|r| - 2] == FileContent(entries) && r[|r| - 2..] == "];"
    ensures entries == [] ==> r == "<?php return [];"
  {
    var r := "<?php return [" + FileContent(entries) + "];";
    assert r[..14] == "<?php return [" && r[14..|r| - 2] == FileContent(entries);
    r
  }

  /** The rendered pairs, in order. */
  function Texts(entries: seq<Entry>): (r: seq<string>)
    ensures |r| == |entries|
  {
    seq(|entries|, k requires 0 <= k < |entries| => EntryText(entries[k]))
  }

  /** The content the separator test evidently intends: every pair but the last followed by `,\n`. */
  function IntendedContent(entries: seq<Entry>): string
  {
    Join(Texts(entries), ",\n")
  }

  // ---- the filesystem and the cache object ----

  class Disk {
    /** The existing files and their contents. */
    var files: map<string, string>

    constructor (files: map<string, string>)
      ensures this.files == files
    {
      this.files := files;
    }

    /** `file_put_contents`: creates or overwrites the file. */
    method Put(path: string, text: string)
      modifies this
      ensures files == old(files)[path := text]
    {
      files := files[path := text];
    }

    /** `unlink` of an existing file. */
    method Unlink(path: string)
      modifies this
      requires path in files
      ensures files == old(files) - {path}
    {
      files := files - {path};
    }
  }

  class NamespaceCache {
    const namespaces: seq<Entry>
    /** `__DIR__ . '../../namespace.php'`: the directory is glued to `..` with no `/` between them. */
    const filePath: string

    constructor (namespaces: seq<Entry>, dir: string)
      ensures this.namespaces == namespaces
      ensures filePath == dir + "../../namespace.php"
    {
      this.namespaces := namespaces;
      filePath := dir + "../../namespace.php";
    }

    /** `createFileContent`: appends each rendered pair, then the separator when the folder is not the last one. */
    method CreateFileContent() returns (content: string)
      ensures content == FileContent(namespaces)
    {
      content := "";
      var last := LastFolder(namespaces);
      var i := 0;
      while i < |namespaces|
        invariant 0 <= i <= |namespaces|
        invariant content == Rendered(namespaces[..i], last)
      {
        var e := namespaces[i];
        RenderedStep(namespaces, i, last);
        content := content + EntryText(e);
        if Some(e.folder) != last {
          content := content + ",\n";
        }
        i := i + 1;
      }
      assert namespaces[..i] == namespaces;
    }

    /** `create`: writes the manifest to `filePath`, replacing any earlier one. */
    method Create(disk: Disk)
      modifies disk
      ensures disk.files == old(disk.files)[filePath := ManifestText(namespaces)]
    {
      var content := CreateFileContent();
      disk.Put(filePath, "<?php return [" + content + "];");
    }

    /** `delete`: removes the manifest if it exists. */
    method Delete(disk: Disk)
      modifies disk
      ensures disk.files == old(disk.files) - {filePath}
    {
      if filePath in disk.files {
        disk.Unlink(filePath);
      }
    }
  }

  /** One more entry appends its pair and its separator. */
  lemma RenderedStep(entries: seq<Entry>, i: nat, last: Option<string>)
    requires i < |entries|
    ensures Rendered(entries[..i + 1], last) == Rendered(entries[..i], last) + EntryText(entries[i]) + Separator(entries[i], last)
  {
    assert entries[..i + 1][..i] == entries[..i];
  }

  // ---- what the rendering promises ----

  /** The key of each pair is a JSON string that decodes back to the namespace, followed by `=>` and the quoted folder. */
  lemma EntryKey(e: Entry)
    ensures var k := Json.EncodeString(e.namespace);
            |k| <= |EntryText(e)|
            && Json.DecodeString(EntryText(e)[..|k|]) == Some(e.namespace)
            && EntryText(e)[|k|..] == "=>" + "\"" + e.folder + "\""
  {
    var k := Json.EncodeString(e.namespace);
    assert EntryText(e) == k + ("=>" + "\"" + e.folder + "\"");
    assert EntryText(e)[..|k|] == k;
  }

  /** How many entries get a separator when compared against `last`. */
  function Separated(entries: seq<Entry>, last: Option<string>): (n: nat)
    ensures n <= |entries|
  {
    if entries == [] then 0
    else Separated(entries[..|entries| - 1], last) + (if Some(entries[|entries| - 1].folder) != last then 1 else 0)
  }

  lemma {:induction false} SumLenSnoc(ss: seq<string>, s: string)
    ensures SumLen(ss + [s]) == SumLen(ss) + |s|
  {
    if ss != [] {
      assert (ss + [s])[1..] == ss[1..] + [s];
      SumLenSnoc(ss[1..], s);
    }
  }

  lemma TextsSnoc(entries: seq<Entry>)
    requires entries != []
    ensures Texts(entries) == Texts(entries[..|entries| - 1]) + [EntryText(entries[|entries| - 1])]
  {
  }

  /** The rendered text is the pairs plus two characters per separator. */
  lemma {:induction false} RenderedLength(entries: seq<Entry>, last: Option<string>)
    ensures |Rendered(entries, last)| == SumLen(Texts(entries)) + 2 * Separated(entries, last)
  {
    if entries != [] {
      var init := entries[..|entries| - 1];
      var e := entries[|entries| - 1];
      RenderedLength(init, last);
      TextsSnoc(entries);
      SumLenSnoc(Texts(init), EntryText(e));
      assert |Rendered(entries, last)| == |Rendered(init, last)| + |EntryText(e)| + |Separator(e, last)|;
    }
  }

  /** An entry compared against its own folder loses its separator. */
  lemma {:induction false} SeparatedMisses(entries: seq<Entry>, last: Option<string>, k: nat)
    requires k < |entries| && Some(entries[k].folder) == last
    ensures Separated(entries, last) < |entries|
  {
    if k < |entries| - 1 {
      SeparatedMisses(entries[..|entries| - 1], last, k);
    }
  }

  /** Entries all compared against a different folder are each followed by `,\n`. */
  lemma {:induction false} RenderedAllSeparated(entries: seq<Entry>, last: Option<string>)
    requires entries != []
    requires forall k :: 0 <= k < |entries| ==> Some(entries[k].folder) != last
    ensures Rendered(entries, last) == IntendedContent(entries) + ",\n"
  {
    var init := entries[..|entries| - 1];
    var t := EntryText(entries[|entries| - 1]);
    assert Rendered(entries, last) == Rendered(init, last) + t + ",\n";
    TextsSnoc(entries);
    if init == [] {
      assert Texts(entries) == [t];
    } else {
      RenderedAllSeparated(init, last);
      JoinSnoc(Texts(init), ",\n", t);
    }
  }

  /**
   * `createFileContent` writes `,\n` between every two pairs exactly when no
   * entry before the last shares the last entry's folder.
   */
  lemma SeparatedIffDistinctLast(entries: seq<Entry>)
    requires entries != []
    ensures FileContent(entries) == IntendedContent(entries)
        <==> forall k :: 0 <= k < |entries| - 1 ==> entries[k].folder != entries[|entries| - 1].folder
  {
    var n := |entries|;
    if forall k :: 0 <= k < n - 1 ==> entries[k].folder != entries[n - 1].folder {
      DistinctLastSeparated(entries);
    } else {
      var k :| 0 <= k < n - 1 && entries[k].folder == entries[n - 1].folder;
      SharedLastDrops(entries, k);
    }
  }

  lemma DistinctLastSeparated(entries: seq<Entry>)
    requires entries != []
    requires forall k :: 0 <= k < |entries| - 1 ==> entries[k].folder != entries[|entries| - 1].folder
    ensures FileContent(entries) == IntendedContent(entries)
  {
    RenderedLastSeparated(entries, LastFolder(entries));
  }

  lemma RenderedLastSeparated(entries: seq<Entry>, last: Option<string>)
    requires entries != [] && last == Some(entries[|entries| - 1].folder)
    requires forall k :: 0 <= k < |entries| - 1 ==> entries[k].folder != entries[|entries| - 1].folder
    ensures Rendered(entries, last) == IntendedContent(entries)
  {
    var n := |entries|;
    var init := entries[..n - 1];
    var t := EntryText(entries[n - 1]);
    TextsSnoc(entries);
    assert Rendered(entries, last) == Rendered(init, last) + t;
    if init == [] {
      assert Texts(entries) == [t];
      assert Rendered(init, last) == [];
    } else {
      assert forall k :: 0 <= k < |init| ==> init[k] == entries[k];
      RenderedAllSeparated(init, last);
      JoinSnoc(Texts(init), ",\n", t);
    }
  }

  lemma SharedLastDrops(entries: seq<Entry>, k: nat)
    requires k < |entries| - 1 && entries[k].folder == entries[|entries| - 1].folder
    ensures FileContent(entries) != IntendedContent(entries)
  {
    var n := |entries|;
    var last := LastFolder(entries);
    var init := entries[..n - 1];
    assert init[k] == entries[k];
    SeparatedMisses(init, last, k);
    assert Separated(entries, last) == Separated(init, last);
    RenderedLength(entries, last);
  }

  /** Two pairs with the same folder are written with no separator between them. */
  lemma DroppedSeparator(a: Entry, b: Entry)
    requires a.folder == b.folder
    ensures FileContent([a, b]) == EntryText(a) + EntryText(b)
    ensures FileContent([a, b]) != IntendedContent([a, b])
  {
    var last := LastFolder([a, b]);
    assert last == Some(b.folder);
    RenderedPair(a, b, last);
    assert Separator(a, last) == [] && Separator(b, last) == [];
    NoSeparators(EntryText(a), EntryText(b));
    assert FileContent([a, b]) == Rendered([a, b], last);
    SharedLastDrops([a, b], 0);
  }

  lemma NoSeparators(x: string, y: string)
    ensures x + [] + y + [] == x + y
  {
  }

  lemma RenderedPair(a: Entry, b: Entry, last: Option<string>)
    ensures Rendered([a, b], last) == EntryText(a) + Separator(a, last) + EntryText(b) + Separator(b, last)
  {
    assert [a, b][..1] == [a];
    assert [a][..0] == [];
    assert Rendered([a], last) == EntryText(a) + Separator(a, last);
  }

  /** With the intended separators, appending an entry appends `,\n` and its pair to the content. */
  lemma IntendedAppend(entries: seq<Entry>, e: Entry)
    requires entries != []
    ensures IntendedContent(entries + [e]) == IntendedContent(entries) + ",\n" + EntryText(e)
  {
    assert Texts(entries + [e]) == Texts(entries) + [EntryText(e)];
    JoinSnoc(Texts(entries), ",\n", EntryText(e));
  }
}
