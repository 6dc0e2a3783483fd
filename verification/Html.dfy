/** `sanitize_html` of `backend/app/core/validators.py`: `html.escape`, five
    replacement passes in order, followed by a regular expression that removes
    whatever still looks like a tag. */
module Html {
  import opened Wrappers

  /** `s.replace(target, replacement)` for a one-character target. */
  function Replace(s: string, target: char, replacement: string): string {
    if s == [] then []
    else (if s[0] == target then replacement else [s[0]]) + Replace(s[1..], target, replacement)
  }

  /** The passes, the ampersand first. */
  function Escape(s: string): string {
    var a := Replace(s, '&', "&amp;");
    var b := Replace(a, '<', "&lt;");
    var c := Replace(b, '>', "&gt;");
    var d := Replace(c, '\"', "&quot;");
    Replace(d, '\'', "&#x27;")
  }

  /** Where the `>` that closes a tag opened just before `from` is: the first one,
      unless it comes at once. */
  function TagEnd(s: string, from: nat): Option<nat>
    requires from <= |s|
    decreases |s| - from
  {
    if from == |s| then None
    else if s[from] == '>' then Some(from)
    else TagEnd(s, from + 1)
  }

  lemma {:induction false} TagEndRange(s: string, from: nat)
    requires from <= |s|
    ensures TagEnd(s, from).Some? ==> from <= TagEnd(s, from).value < |s|
    decreases |s| - from
  {
    if from < |s| && s[from] != '>' {
      TagEndRange(s, from + 1);
    }
  }

  /** `re.sub(r"<[^>]+>", "", s)`. */
  function StripTags(s: string): string {
    if s == [] then []
    else if s[0] != '<' then [s[0]] + StripTags(s[1..])
    else
      TagEndRange(s, 1);
      match TagEnd(s, 1)
      case Some(end) => if end > 1 then StripTags(s[end + 1..]) else [s[0]] + StripTags(s[1..])
      case None => [s[0]] + StripTags(s[1..])
  }

  function SanitizeHtml(text: string): string {
    StripTags(Escape(text))
  }

  // ------------------------------------------------------- one simultaneous map

  function Entity(c: char): string {
    if c == '&' then "&amp;"
    else if c == '<' then "&lt;"
    else if c == '>' then "&gt;"
    else if c == '\"' then "&quot;"
    else if c == '\'' then "&#x27;"
    else [c]
  }

  function MapEntities(s: string): string {
    if s == [] then [] else Entity(s[0]) + MapEntities(s[1..])
  }

  lemma {:induction false} ReplaceConcat(a: string, b: string, target: char, replacement: string)
    ensures Replace(a + b, target, replacement) == Replace(a, target, replacement) + Replace(b, target, replacement)
  {
    if a == [] {
      assert a + b == b;
    } else {
      assert (a + b)[1..] == a[1..] + b;
      ReplaceConcat(a[1..], b, target, replacement);
    }
  }

  lemma {:induction false} ReplaceAbsent(s: string, target: char, replacement: string)
    requires target !in s
    ensures Replace(s, target, replacement) == s
  {
    if s != [] {
      assert s == [s[0]] + s[1..];
      ReplaceAbsent(s[1..], target, replacement);
    }
  }

  lemma ReplaceSingle(c: char, target: char, replacement: string)
    ensures Replace([c], target, replacement) == if c == target then replacement else [c]
  {
    assert [c][1..] == [];
  }

  lemma EscapeConcat(a: string, b: string)
    ensures Escape(a + b) == Escape(a) + Escape(b)
  {
    ReplaceConcat(a, b, '&', "&amp;");
    var a1, b1 := Replace(a, '&', "&amp;"), Replace(b, '&', "&amp;");
    ReplaceConcat(a1, b1, '<', "&lt;");
    var a2, b2 := Replace(a1, '<', "&lt;"), Replace(b1, '<', "&lt;");
    ReplaceConcat(a2, b2, '>', "&gt;");
    var a3, b3 := Replace(a2, '>', "&gt;"), Replace(b2, '>', "&gt;");
    ReplaceConcat(a3, b3, '\"', "&quot;");
    var a4, b4 := Replace(a3, '\"', "&quot;"), Replace(b3, '\"', "&quot;");
    ReplaceConcat(a4, b4, '\'', "&#x27;");
  }

  predicate Special(c: char) {
    c == '<' || c == '>' || c == '\"' || c == '\''
  }

  predicate Inert(s: string) {
    forall i :: 0 <= i < |s| ==> !Special(s[i])
  }

  lemma InertUntouched(s: string, target: char, replacement: string)
    requires Inert(s) && Special(target)
    ensures Replace(s, target, replacement) == s
  {
    ReplaceAbsent(s, target, replacement);
  }

  /** The passes after the ampersand's, each followed by the rest. */
  function FromApostrophe(s: string): string { Replace(s, '\'', "&#x27;") }

  function FromQuote(s: string): string { FromApostrophe(Replace(s, '\"', "&quot;")) }

  function FromGreater(s: string): string { FromQuote(Replace(s, '>', "&gt;")) }

  function FromLess(s: string): string { FromGreater(Replace(s, '<', "&lt;")) }

  /** An entity, once written, is left alone by every later pass. */
  lemma LaterPassesLeave(s: string)
    requires Inert(s)
    ensures FromApostrophe(s) == FromQuote(s) == FromGreater(s) == FromLess(s) == s
  {
    InertUntouched(s, '<', "&lt;");
    InertUntouched(s, '>', "&gt;");
    InertUntouched(s, '\"', "&quot;");
    InertUntouched(s, '\'', "&#x27;");
  }

  lemma EscapeSingle(c: char)
    ensures Escape([c]) == Entity(c)
  {
    ReplaceSingle(c, '&', "&amp;");
    assert Escape([c]) == FromLess(Replace([c], '&', "&amp;"));
    if c == '&' {
      LaterPassesLeave(Entity(c));
    } else {
      LessSingle(c);
    }
  }

  lemma LessSingle(c: char)
    requires c != '&'
    ensures FromLess([c]) == Entity(c)
  {
    ReplaceSingle(c, '<', "&lt;");
    if c == '<' {
      LaterPassesLeave(Entity(c));
    } else {
      ReplaceSingle(c, '>', "&gt;");
      if c == '>' {
        LaterPassesLeave(Entity(c));
      } else {
        QuoteSingle(c);
      }
    }
  }

  lemma QuoteSingle(c: char)
    requires c != '&' && c != '<' && c != '>'
    ensures FromQuote([c]) == Entity(c)
  {
    ReplaceSingle(c, '\"', "&quot;");
    if c == '\"' {
      LaterPassesLeave(Entity(c));
    } else {
      ReplaceSingle(c, '\'', "&#x27;");
    }
  }

  /** The five passes in sequence are one simultaneous per-character map. */
  lemma {:induction false} PassesAreOneMap(s: string)
    ensures Escape(s) == MapEntities(s)
  {
    if s != [] {
      assert s == [s[0]] + s[1..];
      EscapeConcat([s[0]], s[1..]);
      EscapeSingle(s[0]);
      PassesAreOneMap(s[1..]);
    }
  }

  // --------------------------------------------------------------- what comes out

  lemma {:induction false} MapIsInert(s: string)
    ensures Inert(MapEntities(s))
  {
    if s != [] {
      MapIsInert(s[1..]);
      assert Inert(Entity(s[0]));
    }
  }

  lemma {:induction false} NothingToStrip(s: string)
    requires Inert(s)
    ensures StripTags(s) == s
  {
    if s != [] {
      assert !Special(s[0]);
      assert s == [s[0]] + s[1..];
      NothingToStrip(s[1..]);
    }
  }

  /** The result never contains an angle bracket or a quote, and the pass that
      removes tags is the identity: sanitizing is exactly the map. */
  lemma SanitizedIsInert(text: string)
    ensures SanitizeHtml(text) == MapEntities(text)
    ensures Inert(SanitizeHtml(text))
  {
    PassesAreOneMap(text);
    MapIsInert(text);
    NothingToStrip(Escape(text));
  }

  // -------------------------------------------------------------------- decoding

  /** Reads the five entities back, leaving everything else alone. */
  function Unescape(s: string): string {
    if s == [] then []
    else if "&amp;" <= s then ['&'] + Unescape(s[5..])
    else if "&lt;" <= s then ['<'] + Unescape(s[4..])
    else if "&gt;" <= s then ['>'] + Unescape(s[4..])
    else if "&quot;" <= s then ['\"'] + Unescape(s[6..])
    else if "&#x27;" <= s then ['\''] + Unescape(s[6..])
    else [s[0]] + Unescape(s[1..])
  }

  lemma UnescapeEntity(c: char, rest: string)
    ensures Unescape(Entity(c) + rest) == [c] + Unescape(rest)
  {
    var e := Entity(c);
    var s := e + rest;
    assert s[|e|..] == rest && e <= s && s[0] == e[0];
    if c == '&' || c == '<' || c == '>' || c == '\"' || c == '\'' {
      assert s[1] == e[1];
    }
  }

  /** Decoding recovers every input. */
  lemma {:induction false} SanitizeLosesNothing(text: string)
    ensures Unescape(SanitizeHtml(text)) == text
  {
    SanitizedIsInert(text);
    if text != [] {
      SanitizedIsInert(text[1..]);
      SanitizeLosesNothing(text[1..]);
      UnescapeEntity(text[0], MapEntities(text[1..]));
      assert text == [text[0]] + text[1..];
    }
  }

  /** So no two texts sanitize to the same result. */
  lemma SanitizeIsInjective(a: string, b: string)
    requires SanitizeHtml(a) == SanitizeHtml(b)
    ensures a == b
  {
    SanitizeLosesNothing(a);
    SanitizeLosesNothing(b);
  }

  // --------------------------------------------------- what the comment promises

  lemma {:induction false} StripShortens(s: string)
    ensures |StripTags(s)| <= |s|
    ensures StripTags(s) != s ==> |StripTags(s)| < |s|
    decreases |s|
  {
    if s != [] {
      TagEndRange(s, 1);
      StripShortens(s[1..]);
      assert s == [s[0]] + s[1..];
      if s[0] == '<' && TagEnd(s, 1).Some? {
        StripShortens(s[TagEnd(s, 1).value + 1..]);
      }
    }
  }

  /** Tags are stripped until none remain. */
  function StripAll(s: string): string
    decreases |s|
  {
    StripShortens(s);
    if StripTags(s) == s then s else StripAll(StripTags(s))
  }

  lemma {:induction false} StripAllShortens(s: string)
    ensures |StripAll(s)| <= |s| && StripTags(StripAll(s)) == StripAll(s)
    decreases |s|
  {
    StripShortens(s);
    if StripTags(s) != s {
      StripAllShortens(StripTags(s));
    }
  }

  /** The documented order: strip, then escape what remains. */
  function Documented(text: string): string {
    Escape(StripAll(text))
  }

  /** A `<` and a later `>` with something but no `>` between them. */
  predicate TagAt(s: string, i: int, j: int) {
    0 <= i && i + 1 < j < |s| && s[i] == '<' && s[j] == '>' && forall k :: i < k < j ==> s[k] != '>'
  }

  ghost predicate HasTag(s: string) {
    exists i, j :: TagAt(s, i, j)
  }

  lemma {:induction false} TagEndIsFirst(s: string, from: nat)
    requires from <= |s|
    ensures match TagEnd(s, from)
      case Some(end) => from <= end < |s| && s[end] == '>' && forall k :: from <= k < end ==> s[k] != '>'
      case None => forall k :: from <= k < |s| ==> s[k] != '>'
    decreases |s| - from
  {
    if from < |s| && s[from] != '>' {
      TagEndIsFirst(s, from + 1);
    }
  }

  lemma TagLater(s: string, i: int, j: int)
    requires s != []
    ensures TagAt(s[1..], i, j) ==> TagAt(s, i + 1, j + 1)
    ensures i > 0 && TagAt(s, i, j) ==> TagAt(s[1..], i - 1, j - 1)
  {
    if TagAt(s[1..], i, j) {
      forall k | i + 1 < k < j + 1 ensures s[k] != '>' {
        assert s[1..][k - 1] == s[k];
      }
    }
  }

  lemma HasTagCons(s: string)
    requires s != []
    ensures HasTag(s) <==> (exists j :: TagAt(s, 0, j)) || HasTag(s[1..])
  {
    if HasTag(s[1..]) {
      var i, j :| TagAt(s[1..], i, j);
      TagLater(s, i, j);
    }
    if HasTag(s) {
      var i, j :| TagAt(s, i, j);
      TagLater(s, i, j);
    }
  }

  /** A pass over the text removes something if and only if it holds a tag. */
  lemma {:induction false} StripsIffTag(s: string)
    ensures StripTags(s) != s <==> HasTag(s)
  {
    if s != [] {
      TagEndIsFirst(s, 1);
      StripsIffTag(s[1..]);
      HasTagCons(s);
      assert s == [s[0]] + s[1..];
      if s[0] == '<' && TagEnd(s, 1).Some? && TagEnd(s, 1).value > 1 {
        var end := TagEnd(s, 1).value;
        assert TagAt(s, 0, end);
        StripShortens(s[end + 1..]);
      }
    }
  }

  /** The code does what it documents on exactly the texts that hold no tag. */
  lemma AsDocumentedIffNoTag(text: string)
    ensures SanitizeHtml(text) == Documented(text) <==> !HasTag(text)
  {
    StripsIffTag(text);
    StripShortens(text);
    if StripTags(text) == text {
      SanitizedIsInert(text);
      PassesAreOneMap(text);
    } else {
      StripAllShortens(StripTags(text));
      PassesAreOneMap(StripAll(text));
      SanitizedIsInert(StripAll(text));
      if SanitizeHtml(text) == Documented(text) {
        SanitizeIsInjective(text, StripAll(text));
      }
    }
  }

  /** A tag comes through as text, where the comment has it removed. */
  lemma TaggedInputs(inner: string)
    requires inner != [] && '>' !in inner
    ensures SanitizeHtml(['<'] + inner + ['>']) == "&lt;" + MapEntities(inner) + "&gt;"
    ensures Documented(['<'] + inner + ['>']) == []
  {
    SanitizedIsInert(['<'] + inner + ['>']);
    MapConcat(['<'] + inner, ['>']);
    MapConcat(['<'], inner);
    MapSingle('<');
    MapSingle('>');
    TagIsStripped(inner, ['<'] + inner + ['>']);
    PassesAreOneMap([]);
  }

  lemma TagIsStripped(inner: string, text: string)
    requires inner != [] && '>' !in inner && text == ['<'] + inner + ['>']
    ensures StripAll(text) == []
  {
    TagEndIsFirst(text, 1);
    forall k | 1 <= k <= |inner| ensures text[k] != '>' {
      assert text[k] == inner[k - 1] && inner[k - 1] in inner;
    }
    var last := |inner| + 1;
    assert text[last] == '>';
    assert TagEnd(text, 1) == Some(last);
    assert text[|inner| + 2..] == [];
    assert StripTags(text) == [];
    assert StripAll([]) == [];
  }

  lemma MapSingle(c: char)
    ensures MapEntities([c]) == Entity(c)
  {
    assert [c][1..] == [];
  }

  lemma {:induction false} MapConcat(a: string, b: string)
    ensures MapEntities(a + b) == MapEntities(a) + MapEntities(b)
  {
    if a == [] {
      assert a + b == b;
    } else {
      assert (a + b)[1..] == a[1..] + b;
      MapConcat(a[1..], b);
    }
  }

  // ---------------------------------------------------------- the order matters

  /** The five passes with the ampersand last. */
  function EscapeAmpersandLast(s: string): string {
    Replace(FromLess(s), '&', "&amp;")
  }

  lemma AmpersandLastConcat(a: string, b: string)
    ensures EscapeAmpersandLast(a + b) == EscapeAmpersandLast(a) + EscapeAmpersandLast(b)
  {
    ReplaceConcat(a, b, '<', "&lt;");
    var a1, b1 := Replace(a, '<', "&lt;"), Replace(b, '<', "&lt;");
    ReplaceConcat(a1, b1, '>', "&gt;");
    var a2, b2 := Replace(a1, '>', "&gt;"), Replace(b1, '>', "&gt;");
    ReplaceConcat(a2, b2, '\"', "&quot;");
    var a3, b3 := Replace(a2, '\"', "&quot;"), Replace(b2, '\"', "&quot;");
    ReplaceConcat(a3, b3, '\'', "&#x27;");
    ReplaceConcat(FromLess(a), FromLess(b), '&', "&amp;");
  }

  /** It rewrites the entities that the other passes made, and only those. */
  lemma AmpersandLastSingle(c: char)
    ensures EscapeAmpersandLast([c]) == if Special(c) then "&amp;" + Entity(c)[1..] else Entity(c)
  {
    if c == '&' {
      LaterPassesLeave([c]);
      ReplaceSingle(c, '&', "&amp;");
    } else if Special(c) {
      LessSingle(c);
      var e := Entity(c);
      assert e == ['&'] + e[1..];
      ReplaceConcat(['&'], e[1..], '&', "&amp;");
      ReplaceSingle('&', '&', "&amp;");
      ReplaceAbsent(e[1..], '&', "&amp;");
    } else {
      LessSingle(c);
      ReplaceSingle(c, '&', "&amp;");
    }
  }

  lemma {:induction false} AmpersandLastIsLonger(s: string)
    ensures |EscapeAmpersandLast(s)| >= |MapEntities(s)|
    ensures |EscapeAmpersandLast(s)| == |MapEntities(s)| ==> Inert(s)
    ensures Inert(s) ==> EscapeAmpersandLast(s) == MapEntities(s)
  {
    if s != [] {
      AmpersandLastIsLonger(s[1..]);
      assert s == [s[0]] + s[1..];
      AmpersandLastConcat([s[0]], s[1..]);
      AmpersandLastSingle(s[0]);
    }
  }

  /** Were the ampersand last, the passes would be the map on exactly the texts
      that need no other entity. */
  lemma AmpersandMustComeFirst(s: string)
    ensures EscapeAmpersandLast(s) == MapEntities(s) <==> Inert(s)
  {
    AmpersandLastIsLonger(s);
  }
}
