/**
 * The data-dependent choices of `TextImageSection.tsx`: which buttons are
 * shown and which of them is drawn as the primary one, which image URL is
 * used, and the defaults for the rich-text body and the layout direction.
 */
module TextImageSection {
  import opened Common

  /** A call-to-action entry of `section.button`. */
  datatype Button = Button(id: int, text: Option<string>, link: Option<string>)

  /** `section.image`: its own URL and the URL of its large rendition. */
  datatype Image = Image(url: Option<string>, largeUrl: Option<string>)

  /** `section.richText`: a block list, or a value that is not an array. */
  datatype RichText = Blocks(blocks: seq<string>) | NotAnArray

  datatype Section = Section(
    richText: RichText,
    image: Option<Image>,
    reversed: Option<bool>,
    buttons: Option<seq<Button>>)

  /** `Array.isArray(section.richText) ? section.richText : []` */
  function Content(s: Section): (c: seq<string>)
    ensures s.richText.Blocks? ==> c == s.richText.blocks
    ensures s.richText.NotAnArray? ==> c == []
  {
    match s.richText
    case Blocks(bs) => bs
    case NotAnArray => []
  }

  /** `const { reversed = false } = section` */
  function Reversed(s: Section): (b: bool)
    ensures s.reversed.None? ==> !b
    ensures s.reversed.Some? ==> b == s.reversed.value
  {
    s.reversed.GetOr(false)
  }

  /** `section.image?.formats?.large?.url || section.image?.url` */
  function ImageUrl(image: Option<Image>): (u: Option<string>)
    ensures image.None? ==> u.None?
    ensures image.Some? && Truthy(image.value.largeUrl) ==> u == image.value.largeUrl
    ensures image.Some? && !Truthy(image.value.largeUrl) ==> u == image.value.url
  {
    match image
    case None => None
    case Some(img) => if Truthy(img.largeUrl) then img.largeUrl else img.url
  }

  /** The image is drawn exactly when one of the two URLs is a non-empty string; the large one wins. */
  lemma ImageShownIffSomeUrl(image: Option<Image>)
    ensures Truthy(ImageUrl(image)) <==>
      image.Some? && (Truthy(image.value.largeUrl) || Truthy(image.value.url))
    ensures image.Some? && Truthy(image.value.largeUrl) ==> ImageUrl(image) == image.value.largeUrl
  {
  }

  // ---------------------------------------------------------------------------
  // Buttons
  // ---------------------------------------------------------------------------

  predicate HasText(b: Button) {
    Truthy(b.text)
  }

  /** `section.button?.filter((btn) => btn.buttonText) || []` */
  function ValidButtons(buttons: Option<seq<Button>>): (r: seq<Button>)
    ensures forall b :: b in r <==> buttons.Some? && b in buttons.value && HasText(b)
    ensures buttons.Some? ==> IsSubsequence(r, buttons.value)
    // Every copy of a button with text is kept, and no copy of any other.
    ensures buttons.Some? ==>
      forall b :: multiset(r)[b] == if HasText(b) then multiset(buttons.value)[b] else 0
  {
    match buttons
    case None => []
    case Some(bs) =>
      FilterIsSubsequence(bs, HasText);
      forall b ensures multiset(Filter(bs, HasText))[b] == if HasText(b) then multiset(bs)[b] else 0 {
        FilterCount(bs, HasText, b);
      }
      Filter(bs, HasText)
  }

  /** `findIndex((b) => b.id === id)`: the first index with that id, or -1. */
  function FindIndexById(bs: seq<Button>, id: int): (i: int)
    ensures -1 <= i < |bs|
    ensures i == -1 <==> forall k :: 0 <= k < |bs| ==> bs[k].id != id
    ensures i >= 0 ==> bs[i].id == id && forall k :: 0 <= k < i ==> bs[k].id != id
    decreases |bs|
  {
    if |bs| == 0 then -1
    else if bs[0].id == id then 0
    else
      var j := FindIndexById(bs[1..], id);
      assert forall k :: 0 < k < |bs| ==> bs[k] == bs[1..][k - 1];
      if j == -1 then -1 else j + 1
  }

  /**
   * `section.button?.findIndex((b) => b.id === btn.id) || 0`: the `|| 0`
   * only replaces `undefined`, when there is no button list at all.
   */
  function OriginalIndex(buttons: Option<seq<Button>>, b: Button): (i: int)
    // Index 0 means "no list" or "the first button carries this id".
    ensures i == 0 <==> buttons.None? || (|buttons.value| > 0 && buttons.value[0].id == b.id)
    // `-1` (not found) survives the `|| 0`, since it is truthy.
    ensures i == -1 <==> buttons.Some? && forall k :: 0 <= k < |buttons.value| ==> buttons.value[k].id != b.id
    ensures buttons.Some? ==> -1 <= i < |buttons.value|
  {
    match buttons
    case None => 0
    case Some(bs) => FindIndexById(bs, b.id)
  }

  datatype Kind = Primary | Secondary

  datatype RenderedButton = RenderedButton(button: Button, kind: Kind)

  /** The button row: the valid buttons in order, each primary or secondary. */
  function RenderButtons(buttons: Option<seq<Button>>): (r: seq<RenderedButton>)
    ensures |r| == |ValidButtons(buttons)|
    ensures forall k :: 0 <= k < |r| ==> r[k].button == ValidButtons(buttons)[k]
    ensures forall k :: 0 <= k < |r| ==>
      (r[k].kind == Primary <==> OriginalIndex(buttons, r[k].button) == 0)
  {
    var vs := ValidButtons(buttons);
    seq(|vs|, k requires 0 <= k < |vs| =>
      RenderedButton(vs[k], if OriginalIndex(buttons, vs[k]) == 0 then Primary else Secondary))
  }

  /** A listed button is primary exactly when it shares its id with the first button of the list. */
  lemma PrimaryIffFirstId(bs: seq<Button>, b: Button)
    requires b in bs
    ensures OriginalIndex(Some(bs), b) == 0 <==> b.id == bs[0].id
  {
  }

  predicate UniqueIds(bs: seq<Button>) {
    forall i, j :: 0 <= i < j < |bs| ==> bs[i].id != bs[j].id
  }

  /** With unique ids, a rendered button is primary exactly when it is the first entry of the list. */
  lemma PrimaryIffFirstEntry(bs: seq<Button>, k: nat)
    requires UniqueIds(bs)
    requires k < |RenderButtons(Some(bs))|
    ensures RenderButtons(Some(bs))[k].kind == Primary <==> RenderButtons(Some(bs))[k].button == bs[0]
  {
    var b := RenderButtons(Some(bs))[k].button;
    assert b in ValidButtons(Some(bs));
    PrimaryIffFirstId(bs, b);
    var j :| 0 <= j < |bs| && bs[j] == b;
    if b.id == bs[0].id {
      assert j == 0;
    }
  }

  /** With unique ids and an empty first button, every rendered button is secondary. */
  lemma EmptyFirstMeansNoPrimary(bs: seq<Button>)
    requires UniqueIds(bs)
    requires |bs| > 0 && !HasText(bs[0])
    ensures forall k :: 0 <= k < |RenderButtons(Some(bs))| ==> RenderButtons(Some(bs))[k].kind == Secondary
  {
    forall k | 0 <= k < |RenderButtons(Some(bs))|
      ensures RenderButtons(Some(bs))[k].kind == Secondary
    {
      PrimaryIffFirstEntry(bs, k);
      assert RenderButtons(Some(bs))[k].button in ValidButtons(Some(bs));
    }
  }

  /** With unique ids, at most one button is drawn as primary. */
  lemma AtMostOnePrimary(bs: seq<Button>, i: nat, j: nat)
    requires UniqueIds(bs)
    requires i < j < |RenderButtons(Some(bs))|
    ensures !(RenderButtons(Some(bs))[i].kind == Primary && RenderButtons(Some(bs))[j].kind == Primary)
  {
    var r := RenderButtons(Some(bs));
    PrimaryIffFirstEntry(bs, i);
    PrimaryIffFirstEntry(bs, j);
    var vs := ValidButtons(Some(bs));
    if r[i].kind == Primary && r[j].kind == Primary {
      assert vs[i] == vs[j];
      SubsequenceDistinct(bs, vs, i, j);
    }
  }

  /** Two positions of a subsequence of a list with unique ids hold different buttons. */
  lemma {:induction false} SubsequenceDistinct(bs: seq<Button>, vs: seq<Button>, i: nat, j: nat)
    requires UniqueIds(bs)
    requires IsSubsequence(vs, bs)
    requires i < j < |vs|
    ensures vs[i] != vs[j]
    decreases |bs|
  {
    if vs[0] == bs[0] {
      assert UniqueIds(bs[1..]) by {
        forall a, c | 0 <= a < c < |bs[1..]|
          ensures bs[1..][a].id != bs[1..][c].id
        {
          assert bs[1..][a] == bs[a + 1] && bs[1..][c] == bs[c + 1];
        }
      }
      if i == 0 {
        assert vs[j] == vs[1..][j - 1];
        SubsequenceMember(vs[1..], bs[1..], j - 1);
        var m :| 0 <= m < |bs[1..]| && bs[1..][m] == vs[j];
        assert bs[m + 1] == vs[j];
      } else {
        SubsequenceDistinct(bs[1..], vs[1..], i - 1, j - 1);
      }
    } else {
      assert UniqueIds(bs[1..]) by {
        forall a, c | 0 <= a < c < |bs[1..]|
          ensures bs[1..][a].id != bs[1..][c].id
        {
          assert bs[1..][a] == bs[a + 1] && bs[1..][c] == bs[c + 1];
        }
      }
      SubsequenceDistinct(bs[1..], vs, i, j);
    }
  }

  /** A later button that repeats the first button's id is drawn as primary too. */
  lemma ExampleRepeatedIdTwoPrimaries()
    ensures var bs := [Button(7, Some("Apply"), None), Button(7, Some("Learn more"), None)];
      RenderButtons(Some(bs)) ==
        [RenderedButton(bs[0], Primary), RenderedButton(bs[1], Primary)]
  {
    var bs := [Button(7, Some("Apply"), None), Button(7, Some("Learn more"), None)];
    assert ValidButtons(Some(bs)) == bs;
  }
}
