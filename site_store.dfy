/** The folder the fetched pages are kept in. The file system is a map from
    file names to what the files hold. */
module SiteStore {
  import opened Wrappers
  import Text
  import Sorting

  /** `ChangeKind`: what writing a page did to its file. */
  datatype ChangeKind = Init | Changed | ContentSame

  /** A file's content: text, or bytes that are not UTF-8. */
  datatype Stored = Utf8(text: string) | NotUtf8

  /** The text a page is stored as: trimmed, with one final newline. */
  function Normalize(content: string): (r: string)
    ensures |r| > 0 && r[|r| - 1] == '\n'
    ensures Text.IsTrimmed(r[..|r| - 1])
  {
    var t := Text.Trim(content);
    assert (t + ['\n'])[..|t|] == t;
    t + ['\n']
  }

  /** `read_to_string(..).unwrap_or_default()`: a missing or unreadable file
      reads as the empty string. */
  function Current(files: map<string, Stored>, name: string): string {
    if name in files && files[name].Utf8? then files[name].text else []
  }

  /** The classification of a write of `normal` over a file that read as
      `current`. */
  function KindFor(current: string, normal: string): (k: ChangeKind)
    ensures k == Init <==> current == []
    ensures k == ContentSame <==> current != [] && current == normal
    ensures k == Changed <==> current != [] && current != normal
  {
    if current == [] then Init
    else if current != normal then Changed
    else ContentSame
  }

  /** The classification `write_only_changed` returns. */
  function KindOf(files: map<string, Stored>, name: string, content: string): ChangeKind {
    KindFor(Current(files, name), Normalize(content))
  }

  /** A name is wanted when it is some expected basename followed by '.'. */
  predicate IsWanted(basenames: seq<string>, searched: string) {
    exists i :: 0 <= i < |basenames| && basenames[i] + "." <= searched
  }

  /** What `remove_gone` keeps: a name that decodes and is wanted. */
  predicate Keeps(basenames: seq<string>, decode: string -> Option<string>, name: string) {
    match decode(name)
    case Some(s) => IsWanted(basenames, s)
    case None => false
  }

  /** `basename_is_wanted`: the loop with its early return. */
  method BasenameIsWanted(basenames: seq<string>, searched: string) returns (wanted: bool)
    ensures wanted == IsWanted(basenames, searched)
  {
    for i := 0 to |basenames|
      invariant forall j :: 0 <= j < i ==> !(basenames[j] + "." <= searched)
    {
      if basenames[i] + "." <= searched {
        return true;
      }
    }
    return false;
  }

  /** The final `if` of `write_only_changed`. */
  method Classify(current: string, changed: bool) returns (kind: ChangeKind)
    ensures kind == Init <==> current == []
    ensures kind == Changed <==> current != [] && changed
    ensures kind == ContentSame <==> current != [] && !changed
  {
    if |current| == 0 {
      kind := Init;
    } else if changed {
      kind := Changed;
    } else {
      kind := ContentSame;
    }
  }

  /** Writing the text a file already holds leaves the files as they are. */
  lemma RewriteKeeps(files: map<string, Stored>, name: string, normal: string)
    requires normal != [] && Current(files, name) == normal
    ensures files[name := Utf8(normal)] == files
  {
  }

  /** `SiteStore`. Directory entries are raw names; `decode` is
      `OsString::into_string`, which fails on names that are not UTF-8. */
  class Store {
    var files: map<string, Stored>
    const decode: string -> Option<string>

    constructor(files: map<string, Stored>, decode: string -> Option<string>)
      ensures this.files == files && this.decode == decode
    {
      this.files := files;
      this.decode := decode;
    }

    /** `write_only_changed`: the file is written only when its content
        differs from the normalized page. */
    method WriteOnlyChanged(name: string, content: string) returns (kind: ChangeKind)
      modifies this
      ensures kind == KindOf(old(files), name, content)
      ensures files == old(files)[name := Utf8(Normalize(content))]
      ensures kind == ContentSame ==> files == old(files)
    {
      var normal := Normalize(content);
      var current := Current(files, name);
      var changed := current != normal;
      if changed {
        files := files[name := Utf8(normal)];
      } else {
        RewriteKeeps(files, name, normal);
      }
      kind := Classify(current, changed);
      assert kind == KindFor(current, normal);
    }

    /** Whether the directory entry `n` is wanted. */
    method IsKept(basenames: seq<string>, n: string) returns (wanted: bool)
      ensures wanted == Keeps(basenames, decode, n)
    {
      wanted := false;
      var decoded := decode(n);
      if decoded.Some? {
        wanted := BasenameIsWanted(basenames, decoded.value);
      }
    }

    /** `remove_file` */
    method RemoveFile(n: string)
      modifies this
      ensures files == map m | m in old(files) && m != n :: old(files)[m]
    {
      files := map m | m in files && m != n :: files[m];
    }

    /** `remove_gone`: every file that is not wanted is removed, and the
        removed names are returned in order. Directory order is whatever the
        file system gives; the result does not depend on it. */
    method RemoveGone(basenames: seq<string>) returns (superfluous: seq<string>)
      modifies this
      ensures files == map n | n in old(files) && Keeps(basenames, decode, n) :: old(files)[n]
      ensures Sorting.SortedBy(superfluous, Text.StrLe) && Sorting.Distinct(superfluous)
      ensures forall n :: n in superfluous <==> n in old(files) && !Keeps(basenames, decode, n)
    {
      ghost var before := files;
      var pending := files.Keys;
      var removed: seq<string> := [];
      while pending != {}
        invariant pending <= before.Keys
        invariant forall n :: n in files ==> n in before && files[n] == before[n]
        invariant forall n :: n in before ==> (n in files <==> n in pending || Keeps(basenames, decode, n))
        invariant forall n :: n in removed <==> n in before && n !in pending && !Keeps(basenames, decode, n)
        invariant Sorting.Distinct(removed)
        decreases pending
      {
        var n :| n in pending;
        var wanted := IsKept(basenames, n);
        if !wanted {
          RemoveFile(n);
          removed := removed + [n];
        }
        pending := pending - {n};
      }
      superfluous := SortNames(removed);
    }
  }

  /** `superfluous.sort()` on names that are all different. */
  method SortNames(names: seq<string>) returns (sorted: seq<string>)
    requires Sorting.Distinct(names)
    ensures Sorting.SortedBy(sorted, Text.StrLe) && Sorting.Distinct(sorted)
    ensures forall n :: n in sorted <==> n in names
  {
    sorted := Sorting.Sort(names, Text.StrLe);
    SortedNamesFacts(names);
  }

  // ------------------------------------------------------------ properties

  lemma SortedNamesFacts(names: seq<string>)
    requires Sorting.Distinct(names)
    ensures Sorting.SortedBy(Sorting.Sort(names, Text.StrLe), Text.StrLe)
    ensures Sorting.Distinct(Sorting.Sort(names, Text.StrLe))
    ensures forall n :: n in Sorting.Sort(names, Text.StrLe) <==> n in names
  {
    var sorted := Sorting.Sort(names, Text.StrLe);
    Sorting.StrLeIsTotalOrder();
    Sorting.SortSorted(names, Text.StrLe);
    Sorting.SortKeepsElements(names, Text.StrLe);
    Sorting.DistinctByCount(names);
    Sorting.DistinctByCount(sorted);
  }

  lemma TrimStartKeeps(s: string)
    requires s != [] && !Text.IsWhitespace(s[0])
    ensures Text.TrimStart(s) == s
  {
  }

  lemma TrimEndNewline(t: string)
    requires Text.HasNoTrailingWhitespace(t)
    ensures Text.TrimEnd(t + ['\n']) == t
  {
    assert (t + ['\n'])[..|t|] == t;
  }

  /** A trimmed text followed by a newline trims back to the text. */
  lemma TrimOfLine(t: string)
    requires Text.IsTrimmed(t)
    ensures Text.Trim(t + ['\n']) == t
  {
    var s := t + ['\n'];
    if t == [] {
      assert Text.AllWhitespace(s);
    } else {
      assert s[0] == t[0];
      TrimStartKeeps(s);
      TrimEndNewline(t);
    }
  }

  /** Normalizing stored text again gives the same text. */
  lemma NormalizeIdempotent(content: string)
    ensures Normalize(Normalize(content)) == Normalize(content)
  {
    TrimOfLine(Text.Trim(content));
  }

  /** Writing the same page twice: the second write finds its own content. */
  lemma SecondWriteIsContentSame(files: map<string, Stored>, name: string, content: string)
    ensures KindOf(files[name := Utf8(Normalize(content))], name, content) == ContentSame
  {
  }

  /** Storing the normalized page once more changes nothing. */
  lemma StoredPageIsStable(files: map<string, Stored>, name: string, content: string)
    ensures var after := files[name := Utf8(Normalize(content))];
      KindOf(after, name, Normalize(content)) == ContentSame
  {
    NormalizeIdempotent(content);
  }

  /** A missing, unreadable or empty file classifies as `Init`. */
  lemma FreshFileIsInit(files: map<string, Stored>, name: string, content: string)
    requires name !in files || files[name] == NotUtf8 || files[name] == Utf8("")
    ensures KindOf(files, name, content) == Init
  {
  }

  /** Every expected basename keeps the files named after it, whatever
      their extension. */
  lemma BasenameKeepsItsFiles(basenames: seq<string>, i: nat, extension: string)
    requires i < |basenames|
    ensures IsWanted(basenames, basenames[i] + "." + extension)
  {
    assert basenames[i] + "." <= basenames[i] + "." + extension;
  }

  /** A name without a '.' is never wanted. */
  lemma NameWithoutDotIsUnwanted(basenames: seq<string>, searched: string)
    requires '.' !in searched
    ensures !IsWanted(basenames, searched)
  {
    forall i | 0 <= i < |basenames|
      ensures !(basenames[i] + "." <= searched)
    {
      var p := basenames[i] + ".";
      if |p| <= |searched| {
        assert p[|p| - 1] == '.' && searched[|p| - 1] !in {'.'};
      }
    }
  }

  /** With no expected basenames, everything is removed. */
  lemma NothingExpectedRemovesAll(decode: string -> Option<string>, name: string)
    ensures !Keeps([], decode, name)
  {
  }
}
