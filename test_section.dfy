/**
  The "Test EndPoints" section of the settings page: for a non-empty setting,
  one link per listed name to that name's route under the host's REST
  namespace, in list order; otherwise a notice that no endpoints were added.
  The model yields the list data, not the markup.
 */
module TestSection {
  import opened EndpointList
  import opened RestSupport

  /** The path appended to the site root for a post type's collection route. */
  const RestRoute: string := "/wp-json/wp/v2/"

  /** One list item: where it points and the text it shows. */
  datatype Link = Link(url: string, text: string)

  /** What the section shows. */
  datatype Section = NoEndpointsNotice | EndpointLinks(links: seq<Link>)

  /** The item for one name: the site root, the route, then the name. */
  function LinkTo(siteRoot: string, name: string): (l: Link)
    ensures |l.url| == |siteRoot| + |RestRoute| + |name|
    ensures l.url[..|siteRoot| + |RestRoute|] == siteRoot + RestRoute
    ensures l.url[|siteRoot| + |RestRoute|..] == l.text == name
  {
    var url := siteRoot + RestRoute + name;
    assert url[..|siteRoot| + |RestRoute|] == siteRoot + RestRoute;
    assert url[|siteRoot| + |RestRoute|..] == name;
    Link(url, name)
  }

  /** The `foreach` over the names, one item each. */
  function Links(siteRoot: string, names: seq<string>): (r: seq<Link>)
    ensures |r| == |names|
    ensures forall k :: 0 <= k < |r| ==> r[k] == LinkTo(siteRoot, names[k])
  {
    if names == [] then [] else [LinkTo(siteRoot, names[0])] + Links(siteRoot, names[1..])
  }

  /** The section for the stored setting and the site root (`home_url`). */
  function Render(setting: StoredOption, siteRoot: string): (r: Section)
    ensures r.NoEndpointsNotice? <==> IsEmpty(setting)
    ensures r.EndpointLinks? ==> |r.links| == Count(setting.text, Separator) + 1
  {
    if IsEmpty(setting) then NoEndpointsNotice
    else EndpointLinks(Links(siteRoot, Parse(setting.text)))
  }

  // ---------------------------------------------------------------------------
  // What the section guarantees

  /** The notice is shown exactly when the setting is PHP-empty. */
  lemma NoticeIffEmpty(setting: StoredOption, siteRoot: string)
    ensures Render(setting, siteRoot).NoEndpointsNotice? <==> IsEmpty(setting)
  {
  }

  /** One item per parsed name, in order: its text is the name and its URL the
      site root, the REST route and the name; so there are as many items as
      commas plus one. */
  lemma LinksFollowNames(text: string, siteRoot: string)
    requires !IsEmpty(Stored(text))
    ensures Render(Stored(text), siteRoot).EndpointLinks?
    ensures |Render(Stored(text), siteRoot).links| == Count(text, Separator) + 1
    ensures forall k :: 0 <= k < |Parse(text)| ==>
      Render(Stored(text), siteRoot).links[k] == Link(siteRoot + RestRoute + Parse(text)[k], Parse(text)[k])
  {
  }

  /** The texts shown, in order. */
  function Texts(links: seq<Link>): (r: seq<string>)
    ensures |r| == |links|
    ensures forall k :: 0 <= k < |r| ==> r[k] == links[k].text
  {
    if links == [] then [] else [links[0].text] + Texts(links[1..])
  }

  lemma TextsOfLinks(siteRoot: string, names: seq<string>)
    ensures Texts(Links(siteRoot, names)) == names
  {
    var t := Texts(Links(siteRoot, names));
    assert |t| == |names|;
    forall k | 0 <= k < |t| ensures t[k] == names[k] { }
  }

  /** The texts shown, joined with commas, are the setting with all its
      whitespace deleted. */
  lemma ShownTextsRoundTrip(text: string, siteRoot: string)
    requires !IsEmpty(Stored(text))
    ensures Join(Texts(Render(Stored(text), siteRoot).links)) == StripWhitespace(text)
  {
    TextsOfLinks(siteRoot, Parse(text));
    ParseJoin(text);
  }

  /** The page and the hook agree: every link whose name is registered points
      at a post type that the hook has exposed. */
  lemma LinkedTypesExposed(types: map<string, PostType>, setting: StoredOption, siteRoot: string, k: nat)
    requires Render(setting, siteRoot).EndpointLinks?
    requires k < |Render(setting, siteRoot).links|
    requires Render(setting, siteRoot).links[k].text in types
    ensures Applied(types, setting)[Render(setting, siteRoot).links[k].text].showInRest
  {
    var names := Parse(setting.text);
    assert Render(setting, siteRoot).links[k].text == names[k];
  }
}
