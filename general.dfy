/** `format_url_as_filename`: the whole serialized URL, cleaned, with the
    extension appended. */
module General {
  import opened Urls
  import Text

  function FormatUrlAsFilename(u: Url, extension: string): (r: string)
    ensures Text.IsSuffix("." + extension, r)
    ensures Text.IsCleanStem(r[..|r| - |extension| - 1])
    ensures Text.Alnums(r[..|r| - |extension| - 1]) == Text.Alnums(u.href)
  {
    var stem := Text.CleanStem(u.href);
    Text.CleanStemKeepsAlnums(u.href);
    assert (stem + "." + extension)[..|stem|] == stem;
    stem + "." + extension
  }
}
