/** The string rewrites the scripts apply with `String.prototype.replace`: the
    search query and the output file name derived from a keyword, the search
    URL, the pin URL derived from a result's href, and the follower count
    derived from the creator's profile text. */
module Rewrites {
  import opened JsString

  const PinterestRoot := "https://www.pinterest.com"
  const ProxyHost := "https://proxy.scrapeops.io"
  const SearchPrefix := "https://www.pinterest.com/search/pins/?q="
  const SearchSuffix := "&rs=typed"
  const CsvExtension := ".csv"
  const FollowersLabel := " followers"

  /** `keyword.replace(" ", "+")`. */
  function FormatQuery(keyword: string): (q: string)
    ensures |q| == |keyword|
    ensures ' ' !in keyword ==> q == keyword
  {
    ReplaceFirstChar(keyword, ' ', '+');
    ReplaceFirst(keyword, " ", "+")
  }

  /** `${keyword.replace(" ", "-")}.csv`. */
  function OutputFile(keyword: string): (f: string)
    ensures |f| == |keyword| + 4 && f[|keyword|..] == CsvExtension
    ensures ' ' !in keyword ==> f == keyword + CsvExtension
  {
    ReplaceFirstChar(keyword, ' ', '-');
    ReplaceFirst(keyword, " ", "-") + CsvExtension
  }

  /** Only the first space of the keyword becomes `+` in the query; every other
      character, later spaces included, is kept. */
  lemma FormatQueryFirstSpaceOnly(keyword: string)
    ensures var q := FormatQuery(keyword);
      && (' ' !in keyword ==> q == keyword)
      && (forall j :: 0 <= j < |keyword| && keyword[j] != ' ' ==> q[j] == keyword[j])
      && (forall i :: 0 <= i < |keyword| && keyword[i] == ' ' && (forall k :: 0 <= k < i ==> keyword[k] != ' ') ==>
            q[i] == '+' && forall j :: 0 <= j < |keyword| && j != i ==> q[j] == keyword[j])
  {
    ReplaceFirstChar(keyword, ' ', '+');
  }

  /** Only the first space of the keyword becomes `-` in the file name; every
      other character, later spaces included, is kept, and `.csv` follows. */
  lemma OutputFileFirstSpaceOnly(keyword: string)
    ensures var f := OutputFile(keyword);
      && (' ' !in keyword ==> f == keyword + CsvExtension)
      && (forall j :: 0 <= j < |keyword| && keyword[j] != ' ' ==> f[j] == keyword[j])
      && (forall i :: 0 <= i < |keyword| && keyword[i] == ' ' && (forall k :: 0 <= k < i ==> keyword[k] != ' ') ==>
            f[i] == '-' && forall j :: 0 <= j < |keyword| && j != i ==> f[j] == keyword[j])
  {
    ReplaceFirstChar(keyword, ' ', '-');
  }

  /** The search page for a keyword. */
  function SearchUrl(keyword: string): (u: string)
    ensures |u| == |SearchPrefix| + |keyword| + |SearchSuffix|
    ensures u[..|SearchPrefix|] == SearchPrefix
    ensures u[|SearchPrefix|..|SearchPrefix| + |keyword|] == FormatQuery(keyword)
    ensures u[|SearchPrefix| + |keyword|..] == SearchSuffix
  {
    SearchPrefix + FormatQuery(keyword) + SearchSuffix
  }

  /** `https://www.pinterest.com${href.replace("https://proxy.scrapeops.io", "")}`:
      the href with its first proxy-host occurrence deleted, re-rooted on the
      site. */
  function StubUrl(href: string): (u: string)
    ensures |PinterestRoot| <= |u| && u[..|PinterestRoot|] == PinterestRoot
  {
    PinterestRoot + ReplaceFirst(href, ProxyHost, "")
  }

  /** An href without the proxy host is only re-rooted; otherwise exactly its
      first occurrence of the proxy host is deleted. */
  lemma StubUrlStripsFirstProxyHost(href: string)
    ensures !Contains(href, ProxyHost) ==> StubUrl(href) == PinterestRoot + href
    ensures forall i :: IsFirstOccurrence(href, ProxyHost, i) ==>
              StubUrl(href) == PinterestRoot + href[..i] + href[i + |ProxyHost|..]
  {
    DeleteFirst(href, ProxyHost);
  }

  /** A proxied href `https://proxy.scrapeops.io/pin/…` becomes the pin's page
      on the site. */
  lemma StubUrlOfProxiedHref(path: string)
    ensures StubUrl(ProxyHost + path) == PinterestRoot + path
  {
    FirstOccurrenceAtStart(ProxyHost, path);
    StubUrlStripsFirstProxyHost(ProxyHost + path);
    assert (ProxyHost + path)[|ProxyHost|..] == path;
  }

  /** `profileText.replace(name, "").replace(" followers", "")`. */
  function FollowerCount(profileText: string, name: string): (count: string)
    ensures |count| <= |profileText|
    ensures !Contains(profileText, name) && !Contains(profileText, FollowersLabel) ==> count == profileText
  {
    ReplaceFirst(ReplaceFirst(profileText, name, ""), FollowersLabel, "")
  }

  /** The name is deleted first, at its leftmost occurrence, and then the
      label, from what remains; a name that does not occur deletes nothing. */
  lemma FollowerCountDeletesName(text: string, name: string)
    ensures !Contains(text, name) ==> FollowerCount(text, name) == ReplaceFirst(text, FollowersLabel, "")
    ensures forall i :: IsFirstOccurrence(text, name, i) ==>
              FollowerCount(text, name) == ReplaceFirst(text[..i] + text[i + |name|..], FollowersLabel, "")
  {
    DeleteFirst(text, name);
  }

  /** A profile text made of the name, a count without spaces and the label
      ` followers` yields exactly the count. */
  lemma FollowerCountOfProfile(name: string, count: string)
    requires ' ' !in count
    ensures FollowerCount(name + count + FollowersLabel, name) == count
  {
    var text := name + count + FollowersLabel;
    assert text == name + (count + FollowersLabel);
    FirstOccurrenceAtStart(name, count + FollowersLabel);
    assert text[|name|..] == count + FollowersLabel;
    var rest := count + FollowersLabel;
    assert ReplaceFirst(text, name, "") == rest;
    assert IsFirstOccurrence(rest, FollowersLabel, |count|) by {
      assert rest[|count|..|count| + |FollowersLabel|] == FollowersLabel;
      forall j | 0 <= j < |count| ensures !OccursAt(rest, FollowersLabel, j) {
        assert rest[j] == count[j];
        if j + |FollowersLabel| <= |rest| {
          assert rest[j..j + |FollowersLabel|][0] == rest[j];
        }
      }
    }
    assert rest[..|count|] == count;
    assert rest[|count| + |FollowersLabel|..] == [];
  }

  /** A worked example: "Jane Doe1.2K followers" with the name "Jane Doe"
      gives "1.2K". */
  lemma FollowerCountExample(text: string, name: string, count: string)
    requires text == "Jane Doe1.2K followers" && name == "Jane Doe" && count == "1.2K"
    ensures FollowerCount(text, name) == count
  {
    assert ' ' !in count;
    assert name + count + FollowersLabel == text;
    FollowerCountOfProfile(name, count);
  }

  /** In "bbq grill ideas" the first space is at index 3. */
  lemma FirstSpaceOfExample(k: string)
    requires k == "bbq grill ideas"
    ensures IsFirstOccurrence(k, " ", 3)
  {
    assert k[3..4] == " ";
    forall j | 0 <= j < 3 ensures !OccursAt(k, " ", j) {
      OccursAtChar(k, ' ', j);
    }
  }

  /** Only the first space of a keyword is rewritten in the query. */
  lemma QueryExample(k: string)
    requires k == "bbq grill ideas"
    ensures FormatQuery(k) == "bbq+grill ideas"
  {
    FirstSpaceOfExample(k);
    assert ReplaceFirst(k, " ", "+") == k[..3] + "+" + k[4..];
  }

  /** Only the first space of a keyword is rewritten in the file name. */
  lemma FileNameExample(k: string)
    requires k == "bbq grill ideas"
    ensures OutputFile(k) == "bbq-grill ideas.csv"
  {
    FirstSpaceOfExample(k);
    var name := ReplaceFirst(k, " ", "-");
    assert name == k[..3] + "-" + k[4..];
    assert name == "bbq-grill ideas";
    assert OutputFile(k) == name + CsvExtension;
  }
}
