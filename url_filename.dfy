/** The file name of a site: the reversed domain and the path, cleaned, with
    the extension appended; repetitions of the extension at the end of the
    path are dropped first. */
module UrlFilename {
  import opened Wrappers
  import opened Urls
  import Text
  import Filename

  function Stem(u: Url, extension: string): string
    requires DomainOf(u).Some?
  {
    var path := Text.TrimEndMatches(u.path, extension);
    Text.CleanStem(Filename.ReversedLabels(DomainOf(u).value) + "-" + path)
  }

  /** `format`; a URL without a domain makes the program panic. */
  function Format(u: Url, extension: string): (r: string)
    requires DomainOf(u).Some?
    ensures Text.IsSuffix("." + extension, r)
    ensures Text.IsCleanStem(r[..|r| - |extension| - 1])
  {
    var stem := Stem(u, extension);
    assert (stem + "." + extension)[..|stem|] == stem;
    stem + "." + extension
  }

  // ------------------------------------------------------------ properties

  /** Scheme and fragment are only part of the serialization. */
  lemma SchemeAndFragmentIgnored(a: Url, b: Url, extension: string)
    requires DomainOf(a).Some? && a.host == b.host && a.path == b.path
    ensures Format(a, extension) == Format(b, extension)
  {
  }

  /** A leading "www." does not change the name. */
  lemma WwwIgnored(u: Url, d: string, extension: string)
    requires u.host == Some(Domain("www." + d))
    ensures Format(u, extension) == Format(u.(host := Some(Domain(d))), extension)
  {
    assert "www." <= "www." + d;
    assert ("www." + d)[4..] == d;
  }

  /** The extension at the end of the path is not repeated in the name. */
  lemma ExtensionNotDuplicated(u: Url, p: string, extension: string)
    requires DomainOf(u).Some? && u.path == p + extension && extension != []
    ensures Format(u, extension) == Format(u.(path := p), extension)
  {
    assert Text.IsSuffix(extension, p + extension);
    assert (p + extension)[..|p|] == p;
  }

  /** "robot.txt" with the extension "txt" is named like "robot". */
  lemma DottedExtensionDropped(u: Url, p: string, extension: string)
    requires DomainOf(u).Some? && u.path == p + "." + extension && extension != []
    requires !Text.IsSuffix(extension, p + ".") && !Text.IsSuffix(extension, p)
    ensures Format(u, extension) == Format(u.(path := p), extension)
  {
    ExtensionNotDuplicated(u, p + ".", extension);
    var head := Filename.ReversedLabels(DomainOf(u).value) + "-";
    assert head + (p + ".") == (head + p) + ['.'];
    Text.CleanStemDropsTrailing(head + p, '.');
  }

  /** A slash at the end of the path does not change the name. */
  lemma TrailingSlashIgnored(u: Url, p: string, extension: string)
    requires DomainOf(u).Some? && u.path == p + "/"
    requires !Text.IsSuffix(extension, p + "/") && !Text.IsSuffix(extension, p)
    ensures Format(u, extension) == Format(u.(path := p), extension)
  {
    var head := Filename.ReversedLabels(DomainOf(u).value) + "-";
    assert head + (p + "/") == (head + p) + ['/'];
    Text.CleanStemDropsTrailing(head + p, '/');
  }
}
