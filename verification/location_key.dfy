/**
 * `createLocationKey` of `CareerJobListings.tsx`: a slug built from a location
 * name, used as the React key of a location option.
 *
 *   "loc-" + s.toLowerCase().replace(/\s+/g, "-").replace(/[^a-z0-9-]/g, "")
 *
 * Case folding is ASCII-only (see `Common.Lower`); the whitespace class is the
 * full set that JavaScript's `\s` matches.
 */
module LocationKey {
  import opened Common

  /** The characters matched by `\s` in a JavaScript regular expression. */
  predicate IsJsSpace(c: char) {
    || c == '\t' || c == '\n' || c == '\U{B}' || c == '\U{C}' || c == '\r' || c == ' '
    || c == '\U{A0}' || c == '\U{1680}'
    || ('\U{2000}' <= c <= '\U{200A}')
    || c == '\U{2028}' || c == '\U{2029}' || c == '\U{202F}' || c == '\U{205F}'
    || c == '\U{3000}' || c == '\U{FEFF}'
  }

  /** The characters `[a-z0-9-]` that survive the second replacement. */
  predicate IsKeyChar(c: char) {
    ('a' <= c <= 'z') || ('0' <= c <= '9') || c == '-'
  }

  predicate NoSpace(s: string) {
    forall i :: 0 <= i < |s| ==> !IsJsSpace(s[i])
  }

  predicate AllKeyChars(s: string) {
    forall i :: 0 <= i < |s| ==> IsKeyChar(s[i])
  }

  /** `s` with its leading whitespace run removed. */
  function DropSpaces(s: string): (r: string)
    ensures |r| <= |s|
    decreases |s|
  {
    if |s| > 0 && IsJsSpace(s[0]) then DropSpaces(s[1..]) else s
  }

  /** `replace(/\s+/g, "-")`: every maximal whitespace run becomes one `-`. */
  function Collapse(s: string): (r: string)
    ensures NoSpace(r)
    ensures |r| <= |s|
    decreases |s|
  {
    if |s| == 0 then ""
    else if IsJsSpace(s[0]) then "-" + Collapse(DropSpaces(s[1..]))
    else [s[0]] + Collapse(s[1..])
  }

  /** `replace(/[^a-z0-9-]/g, "")`: keep the key characters, in order. */
  function Strip(s: string): (r: string)
    ensures AllKeyChars(r)
    ensures forall c :: c in r <==> c in s && IsKeyChar(c)
    // Every occurrence of a key character survives, and no other character.
    ensures forall c :: multiset(r)[c] == if IsKeyChar(c) then multiset(s)[c] else 0
  {
    forall c ensures multiset(Filter(s, IsKeyChar))[c] == if IsKeyChar(c) then multiset(s)[c] else 0 {
      FilterCount(s, IsKeyChar, c);
    }
    Filter(s, IsKeyChar)
  }

  /** The three replacements of `createLocationKey`: lower-case, collapse whitespace, strip. */
  function Slug(s: string): (r: string)
    // Only key characters survive, and nothing is added.
    ensures AllKeyChars(r)
    ensures |r| <= |s|
  {
    Strip(Collapse(Lower(s)))
  }

  /** `createLocationKey`. */
  function CreateLocationKey(location: string): (k: string)
    ensures |k| >= 4 && k[..4] == "loc-"
    ensures AllKeyChars(k[4..])
  {
    "loc-" + Slug(location)
  }

  // ---------------------------------------------------------------------------
  // Whitespace runs
  // ---------------------------------------------------------------------------

  /** A string without whitespace is left alone by the first replacement. */
  lemma {:induction false} CollapseNoSpace(s: string)
    requires NoSpace(s)
    ensures Collapse(s) == s
    decreases |s|
  {
    if |s| > 0 {
      CollapseNoSpace(s[1..]);
    }
  }

  lemma {:induction false} DropSpacesRun(w: string, b: string)
    requires forall i :: 0 <= i < |w| ==> IsJsSpace(w[i])
    requires |b| == 0 || !IsJsSpace(b[0])
    ensures DropSpaces(w + b) == b
    decreases |w|
  {
    if |w| > 0 {
      assert (w + b)[1..] == w[1..] + b;
      DropSpacesRun(w[1..], b);
    } else {
      assert w + b == b;
    }
  }

  /**
   * A whitespace run between a space-free prefix and a part that does not
   * start with whitespace becomes exactly one `-`.
   */
  lemma {:induction false} CollapseRun(a: string, w: string, b: string)
    requires NoSpace(a)
    requires |w| > 0 && forall i :: 0 <= i < |w| ==> IsJsSpace(w[i])
    requires |b| == 0 || !IsJsSpace(b[0])
    ensures Collapse(a + w + b) == a + "-" + Collapse(b)
    decreases |a|
  {
    if |a| == 0 {
      assert a + w + b == w + b;
      assert (w + b)[1..] == w[1..] + b;
      DropSpacesRun(w[1..], b);
    } else {
      assert (a + w + b)[1..] == a[1..] + w + b;
      CollapseRun(a[1..], w, b);
      assert a + "-" + Collapse(b) == [a[0]] + (a[1..] + "-" + Collapse(b));
    }
  }

  // ---------------------------------------------------------------------------
  // The slug
  // ---------------------------------------------------------------------------

  lemma {:induction false} StripKeyChars(s: string)
    requires AllKeyChars(s)
    ensures Strip(s) == s
    decreases |s|
  {
    if |s| > 0 {
      StripKeyChars(s[1..]);
    }
  }

  /** The slugs are exactly the strings of key characters: those are left unchanged, and nothing else is. */
  lemma SlugFixpoints(s: string)
    ensures Slug(s) == s <==> AllKeyChars(s)
  {
    if AllKeyChars(s) {
      assert Lower(s) == s;
      CollapseNoSpace(s);
      StripKeyChars(s);
    }
  }

  /** Slugging a slug changes nothing. */
  lemma SlugIdempotent(s: string)
    ensures Slug(Slug(s)) == Slug(s)
  {
    SlugFixpoints(Slug(s));
  }

  /** Reading a slug off its three stages. */
  lemma SlugStages(s: string, lowered: string, collapsed: string, k: string)
    requires Lower(s) == lowered && Collapse(lowered) == collapsed && Strip(collapsed) == k
    ensures Slug(s) == k
  {
  }

  lemma ExampleSlugOfKeyString()
    ensures Slug("new-york") == "new-york"
  {
    assert AllKeyChars("new-york");
    SlugFixpoints("new-york");
  }

  /** Two space-free words around one space are joined by one `-`. */
  lemma CollapseOneSpace(a: string, b: string, s: string, k: string)
    requires NoSpace(a) && NoSpace(b)
    requires s == a + " " + b && k == a + "-" + b
    ensures Collapse(s) == k
  {
    if |b| > 0 {
      assert !IsJsSpace(b[0]);
    }
    CollapseRun(a, " ", b);
    CollapseNoSpace(b);
  }

  lemma ExampleCollapseOneSpace()
    ensures Collapse("new york") == "new-york"
  {
    CollapseOneSpace("new", "york", "new york", "new-york");
  }

  lemma ExampleSlugOfName()
    ensures Slug("New York") == "new-york"
  {
    assert Lower("New York") == "new york";
    ExampleCollapseOneSpace();
    StripKeyChars("new-york");
    SlugStages("New York", "new york", "new-york", "new-york");
  }

  /** Keys of different locations can collide: case and separators are lost. */
  lemma ExampleCollision()
    ensures CreateLocationKey("New York") == CreateLocationKey("new-york")
  {
    ExampleSlugOfKeyString();
    ExampleSlugOfName();
  }

  lemma ExampleCollapseAroundComma()
    ensures Collapse("a , b") == "a-,-b"
  {
    assert "a , b" == "a" + " " + ", b";
    CollapseRun("a", " ", ", b");
    assert ", b" == "," + " " + "b";
    CollapseRun(",", " ", "b");
    CollapseNoSpace("b");
  }

  /** Stripping one non-key character out of a string of key characters closes the gap. */
  lemma StripDropsOne(a: string, c: char, b: string)
    requires AllKeyChars(a) && AllKeyChars(b) && !IsKeyChar(c)
    ensures Strip(a + [c] + b) == a + b
  {
    StripKeyChars(a);
    StripKeyChars(b);
    FilterAppend(a, [c], IsKeyChar);
    assert Filter([c], IsKeyChar) == [];
    assert Strip(a + [c]) == a;
    FilterAppend(a + [c], b, IsKeyChar);
  }

  lemma ExampleStripComma()
    ensures Strip("a-,-b") == "a--b"
  {
    var head, tail := "a-", "-b";
    assert AllKeyChars(head) && AllKeyChars(tail) && !IsKeyChar(',');
    assert "a-,-b" == head + [','] + tail;
    StripDropsOne(head, ',', tail);
    assert head + tail == "a--b";
  }

  /** Whitespace becomes `-` before punctuation is dropped, so "A , B" keeps two dashes. */
  lemma ExamplePunctuationBetweenSpaces()
    ensures Slug("A , B") == "a--b"
  {
    assert Lower("A , B") == "a , b";
    ExampleCollapseAroundComma();
    ExampleStripComma();
    SlugStages("A , B", "a , b", "a-,-b", "a--b");
  }
}
