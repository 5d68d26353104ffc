/** A configured site: its URL and options (file extension, certificate
    leniency, editors), its file name, and the validation of both. */
module Site {
  import opened Wrappers
  import opened Urls
  import Sorting
  import Text
  import Editors
  import UrlFilename

  datatype Options = Options(extension: string, acceptInvalidCerts: bool, editors: seq<Editors.Editor>)

  datatype Site = Site(url: Url, options: Options)

  predicate HasDomain(s: Site) {
    DomainOf(s.url).Some?
  }

  /** `get_filename`: the URL formatted with the site's own extension. */
  function GetFilename(s: Site): (r: string)
    requires HasDomain(s)
    ensures Text.IsSuffix("." + s.options.extension, r)
  {
    UrlFilename.Format(s.url, s.options.extension)
  }

  /** `get_all_filenames`: one name per site, in order. */
  function GetAllFilenames(sites: seq<Site>): (r: seq<string>)
    requires forall i :: 0 <= i < |sites| ==> HasDomain(sites[i])
    ensures |r| == |sites|
    ensures forall i :: 0 <= i < |sites| ==> r[i] == GetFilename(sites[i])
  {
    if sites == [] then [] else [GetFilename(sites[0])] + GetAllFilenames(sites[1..])
  }

  /** `validate_no_duplicate`: sort, remember the count, dedup, compare. */
  method ValidateNoDuplicate(sites: seq<Site>) returns (r: Result<()>)
    requires forall i :: 0 <= i < |sites| ==> HasDomain(sites[i])
    ensures r.Ok? <==> Sorting.Distinct(GetAllFilenames(sites))
    ensures r.Err? ==> r.error == "Some sites are duplicates of each other"
  {
    var filenames := GetAllFilenames(sites);
    filenames := Sorting.Sort(filenames, Text.StrLe);
    var amount := |filenames|;
    filenames := Sorting.Dedup(filenames);
    Sorting.StrLeIsTotalOrder();
    Sorting.SortDedupDetectsDuplicates(GetAllFilenames(sites), Text.StrLe);
    if |filenames| == amount {
      r := Ok(());
    } else {
      r := Err("Some sites are duplicates of each other");
    }
  }

  /** A file extension of one to twelve ASCII characters. */
  predicate ShortAsciiExtension(extension: string) {
    0 < |extension| <= 12 && forall i :: 0 <= i < |extension| ==> Text.IsAscii(extension[i])
  }

  /** The first invalid editor from `k` on, as a specification. */
  function FirstEditorError(editors: seq<Editors.Editor>, k: nat, editorValid: Editors.Editor -> Result<()>): Result<()>
    requires k <= |editors|
    decreases |editors| - k
  {
    if k == |editors| then Ok(())
    else if editorValid(editors[k]).Err? then editorValid(editors[k])
    else FirstEditorError(editors, k + 1, editorValid)
  }

  /** `Options::is_valid` as a specification; the editors' own check is a
      parameter. */
  function OptionsCheck(o: Options, editorValid: Editors.Editor -> Result<()>): Result<()> {
    if !ShortAsciiExtension(o.extension) then Err("extension has to be a short ascii filename extension")
    else FirstEditorError(o.editors, 0, editorValid)
  }

  /** `Options::is_valid`: the extension check, then the editors in order
      with an early return. The byte length equals the character count on
      the ASCII text the check lets through. */
  method OptionsIsValid(o: Options, editorValid: Editors.Editor -> Result<()>) returns (r: Result<()>)
    ensures r == OptionsCheck(o, editorValid)
  {
    if |o.extension| == 0 || |o.extension| > 12 || exists i :: 0 <= i < |o.extension| && !Text.IsAscii(o.extension[i]) {
      return Err("extension has to be a short ascii filename extension");
    }
    for k := 0 to |o.editors|
      invariant FirstEditorError(o.editors, 0, editorValid) == FirstEditorError(o.editors, k, editorValid)
    {
      var check := editorValid(o.editors[k]);
      if check.Err? {
        return check;
      }
    }
    return Ok(());
  }

  /** `Site::is_valid`: the options' check. */
  method IsValid(s: Site, editorValid: Editors.Editor -> Result<()>) returns (r: Result<()>)
    ensures r == OptionsCheck(s.options, editorValid)
  {
    r := OptionsIsValid(s.options, editorValid);
  }

  // ------------------------------------------------------------ properties

  /** The check passes exactly when the extension is short ASCII and every
      editor is valid; otherwise its error is the extension error or the
      first invalid editor's. */
  lemma {:induction false} FirstEditorErrorIff(editors: seq<Editors.Editor>, k: nat, editorValid: Editors.Editor -> Result<()>)
    requires k <= |editors|
    ensures FirstEditorError(editors, k, editorValid).Ok?
        <==> forall j :: k <= j < |editors| ==> editorValid(editors[j]).Ok?
    ensures FirstEditorError(editors, k, editorValid).Err? ==>
              exists j :: k <= j < |editors| && FirstEditorError(editors, k, editorValid) == editorValid(editors[j])
    decreases |editors| - k
  {
    if k < |editors| && editorValid(editors[k]).Ok? {
      FirstEditorErrorIff(editors, k + 1, editorValid);
    }
  }

  lemma OptionsCheckIff(o: Options, editorValid: Editors.Editor -> Result<()>)
    ensures OptionsCheck(o, editorValid).Ok?
        <==> ShortAsciiExtension(o.extension) && forall j :: 0 <= j < |o.editors| ==> editorValid(o.editors[j]).Ok?
  {
    FirstEditorErrorIff(o.editors, 0, editorValid);
  }

  /** Two sites at "/post/" and "/post" with the same extension share a
      file. */
  lemma TrailingSlashSameFile(a: Site, b: Site, p: string)
    requires HasDomain(a) && a.url.path == p + "/"
    requires b.url == a.url.(path := p) && b.options.extension == a.options.extension
    requires !Text.IsSuffix(a.options.extension, p + "/") && !Text.IsSuffix(a.options.extension, p)
    ensures GetFilename(a) == GetFilename(b)
  {
    UrlFilename.TrailingSlashIgnored(a.url, p, a.options.extension);
  }

  /** So a site list holding both is rejected as having duplicates,
      wherever in the list the two stand. */
  lemma TrailingSlashSitesCollide(sites: seq<Site>, i: nat, j: nat, p: string)
    requires forall k :: 0 <= k < |sites| ==> HasDomain(sites[k])
    requires i < |sites| && j < |sites| && i != j
    requires sites[i].url.path == p + "/"
    requires sites[j].url == sites[i].url.(path := p)
    requires sites[j].options.extension == sites[i].options.extension
    requires !Text.IsSuffix(sites[i].options.extension, p + "/")
    requires !Text.IsSuffix(sites[i].options.extension, p)
    ensures !Sorting.Distinct(GetAllFilenames(sites))
  {
    TrailingSlashSameFile(sites[i], sites[j], p);
    if i < j {
      SharedNameRejected(sites, i, j);
    } else {
      SharedNameRejected(sites, j, i);
    }
  }

  /** Two sites with the same file name make the check fail. */
  lemma SharedNameRejected(sites: seq<Site>, i: nat, j: nat)
    requires forall k :: 0 <= k < |sites| ==> HasDomain(sites[k])
    requires i < j < |sites| && GetFilename(sites[i]) == GetFilename(sites[j])
    ensures !Sorting.Distinct(GetAllFilenames(sites))
  {
    assert GetAllFilenames(sites)[i] == GetAllFilenames(sites)[j];
  }
}
