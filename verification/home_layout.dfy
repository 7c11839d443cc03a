/**
 * `HomeLayout.tsx`: each section of the page becomes one `<section>` wrapper
 * whose background, padding and container width follow from the section's
 * `__component` tag and its position, and whose body is the component the tag
 * dispatches to (or nothing for an unknown tag).
 */
module HomeLayout {
  import opened Common

  const HeroTag: string := "sections.hero"
  const TextImageTag: string := "sections.text-image"
  const FeatureGridTag: string := "sections.feature-grid"
  const TestimonialsTag: string := "sections.testimonials"
  const CallToActionTag: string := "sections.call-to-action"
  const TickerTag: string := "sections.ticker"

  /** The tags `renderSection` has a case for. */
  const HandledTags: seq<string> :=
    [HeroTag, TextImageTag, FeatureGridTag, TestimonialsTag, CallToActionTag, TickerTag]

  const White: string := "bg-white"
  const Purple: string := "bg-purple-50"
  const Gray: string := "bg-gray-50"

  const NoPadding: string := "py-0"
  const StandardPadding: string := "py-12 md:py-16 lg:py-24 xl:py-28"

  /** The section components of the home page. */
  datatype Component = Hero | TextImage | FeatureGrid | Testimonials | CallToAction | Ticker

  /** The tag each component is rendered for. */
  function TagOf(c: Component): string {
    match c
    case Hero => HeroTag
    case TextImage => TextImageTag
    case FeatureGrid => FeatureGridTag
    case Testimonials => TestimonialsTag
    case CallToAction => CallToActionTag
    case Ticker => TickerTag
  }

  /** `renderSection`: the `switch` on `__component`, `null` by default. */
  function RenderSection(tag: string): (c: Option<Component>)
    ensures c.None? <==> tag !in HandledTags
    ensures c.Some? ==> TagOf(c.value) == tag
  {
    if tag == HeroTag then Some(Hero)
    else if tag == TextImageTag then Some(TextImage)
    else if tag == FeatureGridTag then Some(FeatureGrid)
    else if tag == TestimonialsTag then Some(Testimonials)
    else if tag == CallToActionTag then Some(CallToAction)
    else if tag == TickerTag then Some(Ticker)
    else None
  }

  /** Every component is reached from its own tag, and from no other. */
  lemma DispatchRoundTrip(c: Component, tag: string)
    ensures RenderSection(TagOf(c)) == Some(c)
    ensures RenderSection(tag) == Some(c) ==> tag == TagOf(c)
  {
  }

  /** `getSectionBackground`: fixed colours for three tags, otherwise alternating by position. */
  function Background(tag: string, index: nat): (bg: string)
    ensures bg in {White, Purple, Gray}
    ensures bg == Purple <==> tag == CallToActionTag
    ensures tag == HeroTag || tag == FeatureGridTag ==> bg == White
    ensures tag !in {HeroTag, CallToActionTag, FeatureGridTag} ==> (bg == Gray <==> index % 2 == 0)
  {
    if tag == HeroTag then White
    else if tag == CallToActionTag then Purple
    else if tag == FeatureGridTag then White
    else if index % 2 == 0 then Gray
    else White
  }

  /** Two neighbouring sections without a fixed colour never share a background. */
  lemma NeighboursAlternate(tag1: string, tag2: string, index: nat)
    requires tag1 !in {HeroTag, CallToActionTag, FeatureGridTag}
    requires tag2 !in {HeroTag, CallToActionTag, FeatureGridTag}
    ensures Background(tag1, index) != Background(tag2, index + 1)
  {
  }

  /** `getSectionPadding` */
  function Padding(tag: string): (p: string)
    ensures p == NoPadding <==> tag == HeroTag || tag == TickerTag
    ensures p != NoPadding ==> p == StandardPadding
  {
    if tag == HeroTag then NoPadding
    else if tag == TickerTag then NoPadding
    else StandardPadding
  }

  /** The container `div` and its width class; the ticker is rendered without one. */
  function Container(tag: string): (w: Option<string>)
    ensures w.None? <==> tag == TickerTag
    ensures tag == HeroTag ==> w == Some("max-w-full")
    ensures tag == CallToActionTag ==> w == Some("max-w-5xl")
    ensures tag !in {HeroTag, CallToActionTag, TickerTag} ==> w == Some("max-w-7xl")
  {
    if tag == TickerTag then None
    else if tag == HeroTag then Some("max-w-full")
    else if tag == CallToActionTag then Some("max-w-5xl")
    else Some("max-w-7xl")
  }

  /** The sections drawn without vertical padding are exactly the edge-to-edge ones: full width or no container. */
  lemma EdgeToEdgeSectionsUnpadded(tag: string)
    ensures Padding(tag) == NoPadding <==> Container(tag).None? || Container(tag) == Some("max-w-full")
  {
  }

  /** A page section as far as the layout looks at it. */
  datatype SectionData = SectionData(id: int, component: string)

  /** One `<section>` wrapper of the page. */
  datatype Wrapper = Wrapper(
    key: int,
    background: string,
    padding: string,
    container: Option<string>,
    body: Option<Component>)

  function WrapperFor(s: SectionData, index: nat): Wrapper {
    Wrapper(s.id, Background(s.component, index), Padding(s.component), Container(s.component), RenderSection(s.component))
  }

  /** `sections.map((section, index) => <section ...>)` */
  function Layout(sections: seq<SectionData>): (ws: seq<Wrapper>)
    ensures |ws| == |sections|
    ensures forall k :: 0 <= k < |ws| ==> ws[k] == WrapperFor(sections[k], k)
  {
    seq(|sections|, k requires 0 <= k < |sections| => WrapperFor(sections[k], k))
  }

  /**
   * Appending sections leaves the existing wrappers alone; the new ones are
   * laid out as if they stood alone, except that the alternating background
   * counts from the length of the page before them.
   */
  lemma LayoutAppend(a: seq<SectionData>, b: seq<SectionData>)
    ensures Layout(a + b)[..|a|] == Layout(a)
    ensures forall k :: 0 <= k < |b| ==>
      && Layout(a + b)[|a| + k].key == Layout(b)[k].key
      && Layout(a + b)[|a| + k].padding == Layout(b)[k].padding
      && Layout(a + b)[|a| + k].container == Layout(b)[k].container
      && Layout(a + b)[|a| + k].body == Layout(b)[k].body
      && Layout(a + b)[|a| + k].background == Background(b[k].component, |a| + k)
  {
    assert forall k :: 0 <= k < |b| ==> (a + b)[|a| + k] == b[k];
  }

  /** A section with an unknown tag still gets its wrapper, with an empty body. */
  lemma UnknownTagKeepsWrapper(sections: seq<SectionData>, k: nat)
    requires k < |sections| && sections[k].component !in HandledTags
    ensures Layout(sections)[k].body.None?
    ensures Layout(sections)[k].key == sections[k].id
  {
  }

  /** The alternation counts every section, so a hero followed by a plain section gives two white bands. */
  lemma ExampleHeroThenTextImage()
    ensures var ws := Layout([SectionData(1, HeroTag), SectionData(2, TextImageTag)]);
      ws[0].background == White && ws[1].background == White
  {
  }
}
