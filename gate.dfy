/** The acceptance gate `addImport` applies to a trimmed URL before registering it. */
module Gate {
  import opened Js
  import opened Text

  /** Why a URL was turned away, or that it was accepted. */
  datatype Verdict = Anchor | Remote | Filtered | Accepted

  /** `/^https?:\/\//.test(url)`. */
  predicate IsRemote(url: string) {
    StartsWith(url, "http://") || StartsWith(url, "https://")
  }

  /** The three checks in source order: an in-document reference (`#id`), a remote URL
      while `http` is off, and the user's `urlFilter` when one is given. The filter is
      consulted only for URLs that pass the first two checks. */
  function Admit(url: string, http: bool, urlFilter: Option<string -> bool>): (v: Verdict)
    ensures v == Accepted <==>
              !StartsWith(url, "#") && (http || !IsRemote(url)) && (urlFilter.None? || urlFilter.value(url))
    ensures v == Anchor <==> StartsWith(url, "#")
    ensures v == Remote <==> !StartsWith(url, "#") && !http && IsRemote(url)
    ensures v == Filtered ==> urlFilter.Some? && !StartsWith(url, "#") && (http || !IsRemote(url))
  {
    if StartsWith(url, "#") then Anchor
    else if !http && IsRemote(url) then Remote
    else if urlFilter.Some? && !urlFilter.value(url) then Filtered
    else Accepted
  }

  /** With `http` off a remote URL is left alone; with it on (and no filter) it is accepted. */
  lemma RemoteGating()
    ensures Admit("https://example.com/a.png", false, None) == Remote
    ensures Admit("https://example.com/a.png", true, None) == Accepted
  {
    var url := "https://example.com/a.png";
    assert url[..8] == "https://";
    assert url[0] == 'h';
    assert url[..1] != "#";
    assert IsRemote(url);
  }
}
