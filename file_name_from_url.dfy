/** `fileNameFromUrl(url)`: the file name at the end of a URL. */
module UrlFileName {
  import opened Wrappers
  import opened Strings

  /** The placeholder returned for a missing URL ("no name"). */
  const NoName: string := "ไม่มีชื่อ"

  /** `null`, `undefined` and `''` give the placeholder; anything else gives its last
      `/`-separated segment cut before the first `?`. */
  function FileNameFromUrl(url: Option<string>): (r: string)
    ensures url == None || url == Some("") ==> r == NoName
    ensures url.Some? && url.value != "" ==> '/' !in r && '?' !in r
    ensures url.Some? && url.value != "" ==> |r| <= |url.value|
  {
    if url.None? || url.value == "" then NoName
    else BeforeFirst(AfterLast(url.value, '/'), '?')
  }

  /** The result is exactly the last segment of the URL, cut before its first `?`: the segment
      is a suffix of the URL without `/` that is the whole URL or follows a `/`, and the result
      is a prefix of it without `?` that is the whole segment or is followed by a `?`. */
  lemma ResultIsInLastSegment(url: string)
    requires url != ""
    ensures var seg := AfterLast(url, '/');
      && '/' !in seg && url[|url| - |seg|..] == seg
      && (|seg| == |url| || url[|url| - |seg| - 1] == '/')
    ensures var seg := AfterLast(url, '/'); var r := FileNameFromUrl(Some(url));
      && '?' !in r && r <= seg
      && (r == seg || seg[|r|] == '?')
  {
    var seg := AfterLast(url, '/');
    assert FileNameFromUrl(Some(url)) == BeforeFirst(seg, '?');
  }

  /** For `dir/name?query`, with no `/` after `dir` and no `?` in `name`, the result is `name`. */
  lemma {:induction false} NameBetweenSlashAndQuery(dir: string, name: string, query: string)
    requires '/' !in name && '?' !in name && '/' !in query
    ensures FileNameFromUrl(Some(dir + "/" + name + "?" + query)) == name
  {
    var url := dir + "/" + name + "?" + query;
    var t := name + "?" + query;
    assert url == dir + "/" + t;
    assert '/' !in t by {
      assert forall i :: 0 <= i < |t| ==> t[i] == (if i < |name| then name[i] else if i == |name| then '?' else query[i - |name| - 1]);
    }
    ResultIsInLastSegment(url);
    var seg := AfterLast(url, '/');
    assert url[|url| - |t| - 1] == '/';
    assert url[|url| - |t|..] == t;
    if |seg| > |t| {
      assert false;
    } else if |seg| < |t| {
      assert false;
    }
    assert seg == t;
    var r := FileNameFromUrl(Some(url));
    assert t[|name|] == '?' && t[..|name|] == name;
    if |r| > |name| {
      assert false;
    } else if |r| < |name| {
      assert false;
    }
    assert r == t[..|name|];
  }

  /** A URL that ends in `/` names nothing. */
  lemma TrailingSlashGivesEmpty(url: string)
    requires url != "" && url[|url| - 1] == '/'
    ensures FileNameFromUrl(Some(url)) == ""
  {
    assert BeforeFirst("", '?') == "";
  }

  /** A bare name is returned as it is. */
  lemma BareNameUnchanged(name: string)
    requires name != "" && '/' !in name && '?' !in name
    ensures FileNameFromUrl(Some(name)) == name
  {
  }

  /** Taking the file name twice gives the same as once, whenever the first result is not empty. */
  lemma FileNameIdempotent(url: Option<string>)
    requires FileNameFromUrl(url) != ""
    ensures FileNameFromUrl(Some(FileNameFromUrl(url))) == FileNameFromUrl(url)
  {
    var r := FileNameFromUrl(url);
    if url.None? || url.value == "" {
      assert '/' !in NoName && '?' !in NoName;
    }
    BareNameUnchanged(r);
  }
}
