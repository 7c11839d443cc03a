/**
 * `CareerHighlights.tsx`: at most three highlight cards, each filling a
 * missing title, description, link text or link URL with a default, and the
 * side image with a placeholder.
 */
module CareerHighlights {
  import opened Common

  /** How many highlights are shown (`slice(0, 3)`). */
  const MaxShown: nat := 3

  const DefaultTitles: seq<string> := ["Life at Lyft", "Early Talent Programs", "Belonging at Lyft"]
  const FallbackTitle: string := "Feature Highlight"

  const DefaultDescriptions: seq<string> := [
    "Lyft culture revolves around our core values. We have superb benefits and great perks (and some pretty cute office dogs). Across our over 45 locations, we've got fabulous programs to connect, grow, and celebrate.",
    "Working at Lyft as an intern, new graduate, or apprentice is a great start to your career. With plenty of mentor support, you'll make an impact with valuable projects. Plus, you'll love how friendly and welcoming Lyft culture is.",
    "Community is at the center of who we are. To offer everyone the best ride, we start by fostering a strong sense of belonging within our team\U{2014}creating an environment where everyone feels valued, supported, and connected."
  ]
  const FallbackDescription: string := "Description content goes here."

  const DefaultLinkText: string := "Learn more"
  const DefaultLinkUrl: string := "#"
  const PlaceholderImage: string := "/api/placeholder/500/400"

  /** `titles[index] || "Feature Highlight"`: outside the table the lookup is `undefined`. */
  function DefaultTitle(index: int): (t: string)
    ensures 0 <= index < |DefaultTitles| ==> t == DefaultTitles[index]
    ensures !(0 <= index < |DefaultTitles|) ==> t == FallbackTitle
    ensures t != ""
  {
    if 0 <= index < |DefaultTitles| && DefaultTitles[index] != "" then DefaultTitles[index]
    else FallbackTitle
  }

  /** `descriptions[index] || "Description content goes here."` */
  function DefaultDescription(index: int): (d: string)
    ensures 0 <= index < |DefaultDescriptions| ==> d == DefaultDescriptions[index]
    ensures !(0 <= index < |DefaultDescriptions|) ==> d == FallbackDescription
    ensures d != ""
  {
    if 0 <= index < |DefaultDescriptions| && DefaultDescriptions[index] != "" then DefaultDescriptions[index]
    else FallbackDescription
  }

  datatype Highlight = Highlight(
    id: Option<int>,
    title: Option<string>,
    description: Option<string>,
    linkText: Option<string>,
    linkUrl: Option<string>)

  /** What one card shows. */
  datatype Card = Card(key: int, title: string, description: string, linkText: string, linkUrl: string)

  /** The card for the highlight at `index`; `highlight.id || index` is its key, so id 0 falls back too. */
  function CardFor(h: Highlight, index: nat): (c: Card)
    ensures c.title != "" && c.description != "" && c.linkText != "" && c.linkUrl != ""
    ensures Truthy(h.title) ==> c.title == h.title.value
    ensures !Truthy(h.title) ==> c.title == DefaultTitle(index)
    ensures Truthy(h.description) ==> c.description == h.description.value
    ensures !Truthy(h.description) ==> c.description == DefaultDescription(index)
    ensures c.linkText == OrElse(h.linkText, DefaultLinkText)
    ensures c.linkUrl == OrElse(h.linkUrl, DefaultLinkUrl)
    ensures c.key == if h.id.Some? && h.id.value != 0 then h.id.value else index
  {
    Card(
      if h.id.Some? && h.id.value != 0 then h.id.value else index,
      OrElse(h.title, DefaultTitle(index)),
      OrElse(h.description, DefaultDescription(index)),
      OrElse(h.linkText, DefaultLinkText),
      OrElse(h.linkUrl, DefaultLinkUrl))
  }

  /** `(highlights || []).slice(0, 3).map(...)` */
  function Render(highlights: Option<seq<Highlight>>): (cs: seq<Card>)
    ensures |cs| <= MaxShown
    ensures |cs| == if |highlights.GetOr([])| < MaxShown then |highlights.GetOr([])| else MaxShown
    ensures forall k :: 0 <= k < |cs| ==> cs[k] == CardFor(highlights.GetOr([])[k], k)
  {
    var hs := highlights.GetOr([]);
    var shown := if |hs| <= MaxShown then hs else hs[..MaxShown];
    seq(|shown|, k requires 0 <= k < |shown| => CardFor(shown[k], k))
  }

  /** Highlights after the third change nothing. */
  lemma LaterHighlightsIgnored(hs: seq<Highlight>, more: seq<Highlight>)
    requires |hs| >= MaxShown
    ensures Render(Some(hs + more)) == Render(Some(hs))
  {
    assert forall k :: 0 <= k < MaxShown ==> (hs + more)[k] == hs[k];
  }

  /** Shown highlights with distinct non-zero ids get distinct card keys. */
  lemma DistinctIdsGiveDistinctKeys(hs: seq<Highlight>, i: nat, j: nat)
    requires i < j < |hs| && j < MaxShown
    requires hs[i].id.Some? && hs[i].id.value != 0
    requires hs[j].id.Some? && hs[j].id.value != 0
    requires hs[i].id != hs[j].id
    ensures Render(Some(hs))[i].key != Render(Some(hs))[j].key
  {
  }

  /**
   * The key falls back to the column index, which can equal another
   * highlight's id: here the first and third cards share the key 2.
   */
  lemma ExampleKeyCollision()
    ensures var none := Highlight(None, None, None, None, None);
      var hs := [none.(id := Some(2)), none, none];
      Render(Some(hs))[0].key == Render(Some(hs))[2].key == 2
  {
  }

  /** An absent list renders no card. */
  lemma AbsentRendersNothing()
    ensures Render(None) == []
  {
  }

  /**
   * Every shown title is non-empty: the highlight's own title, or the named
   * default of its column; the generic fallback title is never reached.
   */
  lemma TitlesFromOwnOrNamedDefault(highlights: Option<seq<Highlight>>, k: nat)
    requires k < |Render(highlights)|
    ensures Render(highlights)[k].title != ""
    ensures var h := highlights.GetOr([])[k];
      Render(highlights)[k].title == if Truthy(h.title) then h.title.value else DefaultTitles[k]
    ensures !Truthy(highlights.GetOr([])[k].title) ==> Render(highlights)[k].title != FallbackTitle
  {
  }

  /** The side image: `image?.url ? image.url : "/api/placeholder/500/400"`. */
  function ImageSource(url: Option<string>): (src: string)
    ensures src != ""
    ensures Truthy(url) ==> src == url.value
    ensures !Truthy(url) ==> src == PlaceholderImage
  {
    OrElse(url, PlaceholderImage)
  }
}
