/** `WebsiteCrawler` (src/crawler.py): URL validation, the choice of the page's
    content area from a fixed, ordered list of selectors, text normalisation and
    the success or failure record `fetch_content` returns.

    The parsed page is seen only through oracles: the length of its visible text
    (the 500-character pre-check), its `<title>` element, `soup.find` as a
    function from a lookup to an optional node, and `get_text` of a node. */
module Crawler {
  import opened Text

  // ---------------------------------------------------------------------------
  // URL validation

  /** The two components of `urlparse(url)` that `validate_url` reads. */
  datatype UrlParts = UrlParts(scheme: string, netloc: string)

  /** `validate_url`: `parsed` is `None` when `urlparse` raised. */
  predicate ValidUrl(parsed: Option<UrlParts>) {
    parsed.Some? && (parsed.value.scheme == "http" || parsed.value.scheme == "https") &&
    parsed.value.netloc != ""
  }

  // ---------------------------------------------------------------------------
  // Selectors

  /** The four kinds of `soup.find` call the selector loop makes. */
  datatype Lookup =
    | ByClass(className: string)            // soup.find(class_=...)
    | ById(id: string)                      // soup.find(id=...)
    | ByAttribute(key: string, value: string) // soup.find(attrs={key: value})
    | ByTag(name: string)                   // soup.find(name)

  /** A selector either yields a lookup or raises while being unpacked into
      `key, val` (its text between the brackets does not hold exactly one `=`). */
  datatype ParsedSelector = Query(lookup: Lookup) | UnpackError(parts: nat)

  /** The selectors tried in order, most specific first. */
  const Selectors: seq<string> := [
    "div.content", "div.article-content", "div.entry-content",
    "article", "main", ".post-content", ".entry-content",
    "[itemprop=\"articleBody\"]", "#content"
  ]

  predicate IsQuote(c: char) { c == '"' }

  /** Python's `selector[1:-1]`. */
  function Inner(sel: string): (r: string)
    ensures |sel| >= 2 ==> r == sel[1..|sel| - 1]
  {
    if |sel| >= 2 then sel[1..|sel| - 1] else ""
  }

  /** The dispatch of the selector loop: on the first character only. */
  function ParseSelector(sel: string): (p: ParsedSelector)
    ensures p.Query? && p.lookup.ByClass? <==> sel != [] && sel[0] == '.'
    ensures p.Query? && p.lookup.ById? <==> sel != [] && sel[0] == '#'
    ensures p.UnpackError? || p.lookup.ByAttribute? <==> sel != [] && sel[0] == '['
    ensures p.Query? && (p.lookup.ByClass? || p.lookup.ById?) ==>
              sel[1..] == (if p.lookup.ByClass? then p.lookup.className else p.lookup.id)
    ensures p.Query? && p.lookup.ByTag? ==> p.lookup.name == sel
    ensures p.Query? && p.lookup.ByAttribute? ==>
              '=' !in p.lookup.key && '=' !in p.lookup.value && TrimmedBy(p.lookup.value, IsQuote)
    ensures p.UnpackError? ==> p.parts != 2
  {
    if sel != [] && sel[0] == '.' then Query(ByClass(sel[1..]))
    else if sel != [] && sel[0] == '#' then Query(ById(sel[1..]))
    else if sel != [] && sel[0] == '[' then
      var parts := Split(Inner(sel), '=');
      SplitPartsLackSep(Inner(sel), '=');
      if |parts| != 2 then UnpackError(|parts|)
      else
        var value := StripBy(parts[1], IsQuote);
        StripByChars(parts[1], IsQuote, '=');
        Query(ByAttribute(parts[0], value))
    else Query(ByTag(sel))
  }

  /** A lookup whose selector text reads back as the same lookup. */
  predicate WellFormed(l: Lookup) {
    match l
    case ByClass(_) => true
    case ById(_) => true
    case ByAttribute(k, v) => '=' !in k && '=' !in v && TrimmedBy(v, IsQuote)
    case ByTag(n) => n == [] || (n[0] != '.' && n[0] != '#' && n[0] != '[')
  }

  /** The selector text for a lookup, as written in the selector list. */
  function SelectorText(l: Lookup): string {
    match l
    case ByClass(c) => "." + c
    case ById(i) => "#" + i
    case ByAttribute(k, v) => "[" + k + "=\"" + v + "\"]"
    case ByTag(n) => n
  }

  /** Writing a well-formed lookup as a selector and parsing it gives it back. */
  lemma SelectorRoundTrip(l: Lookup)
    requires WellFormed(l)
    ensures ParseSelector(SelectorText(l)) == Query(l)
  {
    match l
    case ByClass(c) => assert ("." + c)[1..] == c;
    case ById(i) => assert ("#" + i)[1..] == i;
    case ByAttribute(k, v) => AttributeRoundTrip(k, v);
    case ByTag(n) =>
  }

  lemma AttributeRoundTrip(k: string, v: string)
    requires '=' !in k && '=' !in v && TrimmedBy(v, IsQuote)
    ensures ParseSelector(SelectorText(ByAttribute(k, v))) == Query(ByAttribute(k, v))
  {
    var sel := SelectorText(ByAttribute(k, v));
    var quoted := "\"" + v + "\"";
    assert Inner(sel) == k + ['='] + quoted by {
      assert sel == "[" + (k + ['='] + quoted) + "]";
    }
    SplitPair(k, quoted, v);
    StripQuoted(v);
  }

  /** A key and a quoted value without `=` split on `=` into the two. */
  lemma SplitPair(k: string, quoted: string, v: string)
    requires '=' !in k && '=' !in v && quoted == "\"" + v + "\""
    ensures Split(k + ['='] + quoted, '=') == [k, quoted]
  {
    assert '=' !in quoted by {
      assert forall j :: 0 <= j < |quoted| ==> quoted[j] == '"' || quoted[j] == v[j - 1];
    }
    SplitAround(k, quoted, '=');
    SplitWithout(k, '=');
    SplitWithout(quoted, '=');
  }

  /** Stripping `"` from a quoted value without quotes at its ends gives the value. */
  lemma StripQuoted(v: string)
    requires TrimmedBy(v, IsQuote)
    ensures StripBy("\"" + v + "\"", IsQuote) == v
  {
    var s := "\"" + v + "\"";
    var r := StripBy(s, IsQuote);
    if v == [] {
      assert s == "\"\"";
      assert LeadingRun(s, IsQuote) == 2;
    } else {
      assert s[1..] == v + "\"";
      assert LeadingRun(s[1..], IsQuote) == 0;
      assert LeadingRun(s, IsQuote) == 1;
      assert r == s[1..1 + |r|];
      assert !IsQuote(s[|v|]) && IsQuote(s[|v| + 1]);
      assert |r| == |v|;
      assert r == s[1..1 + |v|];
    }
  }

  /** The selector list, as lookups. */
  const SelectorLookups: seq<Lookup> := [
    ByTag("div.content"), ByTag("div.article-content"), ByTag("div.entry-content"),
    ByTag("article"), ByTag("main"), ByClass("post-content"), ByClass("entry-content"),
    ByAttribute("itemprop", "articleBody"), ById("content")
  ]

  /** The selector list is the written form of the lookups. */
  lemma SelectorsText(k: nat)
    requires k < |Selectors|
    ensures |SelectorLookups| == |Selectors|
    ensures WellFormed(SelectorLookups[k]) && SelectorText(SelectorLookups[k]) == Selectors[k]
  {
    if k == 7 {
      AttributeSelectorText();
    } else if k == 5 || k == 6 || k == 8 {
      PrefixedSelectorText(k);
    } else {
      TagSelectorText(k);
    }
  }

  lemma AttributeSelectorText()
    ensures WellFormed(SelectorLookups[7]) && SelectorText(SelectorLookups[7]) == Selectors[7]
  {
    var key, value := "itemprop", "articleBody";
    assert SelectorLookups[7] == ByAttribute(key, value);
    assert Selectors[7] == "[" + key + "=\"" + value + "\"]";
    assert TrimmedBy(value, IsQuote);
  }

  lemma PrefixedSelectorText(k: nat)
    requires k == 5 || k == 6 || k == 8
    ensures WellFormed(SelectorLookups[k]) && SelectorText(SelectorLookups[k]) == Selectors[k]
  {
    assert Selectors[k] == [Selectors[k][0]] + Selectors[k][1..];
  }

  lemma TagSelectorText(k: nat)
    requires k < 5
    ensures WellFormed(SelectorLookups[k]) && SelectorText(SelectorLookups[k]) == Selectors[k]
  {
    assert SelectorLookups[k] == ByTag(Selectors[k]);
  }

  /** The selector list dispatches as written: the three `div.`-prefixed
      entries start with a letter and so are looked up as tag names, whole. */
  lemma SelectorsDispatch()
    ensures |Selectors| == |SelectorLookups|
    ensures forall k :: 0 <= k < |Selectors| ==> ParseSelector(Selectors[k]) == Query(SelectorLookups[k])
  {
    forall k | 0 <= k < |Selectors|
      ensures ParseSelector(Selectors[k]) == Query(SelectorLookups[k])
    {
      SelectorsText(k);
      SelectorRoundTrip(SelectorLookups[k]);
    }
  }

  // ---------------------------------------------------------------------------
  // Content-area selection

  /** What the loop over the selectors ends with. */
  datatype Match<N> = Hit(index: nat, node: N) | Miss | BadSelector(index: nat, parts: nat)

  /** Every selector in `sels[from..to]` parses and finds nothing. */
  predicate MissesBetween<N>(sels: seq<string>, find: Lookup -> Option<N>, from: nat, to: nat)
    requires from <= to <= |sels|
  {
    forall j :: from <= j < to ==> ParseSelector(sels[j]).Query? && find(ParseSelector(sels[j]).lookup).None?
  }

  /** The first selector at or after `i` that raises or finds a node. */
  function FirstMatchFrom<N(==)>(sels: seq<string>, find: Lookup -> Option<N>, i: nat): Match<N>
    requires i <= |sels|
    decreases |sels| - i
  {
    if i == |sels| then Miss
    else match ParseSelector(sels[i])
      case UnpackError(n) => BadSelector(i, n)
      case Query(l) =>
        if find(l).Some? then Hit(i, find(l).value) else FirstMatchFrom(sels, find, i + 1)
  }

  /** The loop's outcome from selector `i` on: a hit or a raising selector
      comes after selectors that all parsed and missed, and the loop runs out
      exactly when every remaining selector missed. */
  lemma {:induction false} FirstMatchMeaning<N>(sels: seq<string>, find: Lookup -> Option<N>, i: nat)
    requires i <= |sels|
    ensures match FirstMatchFrom(sels, find, i)
            case Hit(k, n) =>
              i <= k < |sels| && MissesBetween(sels, find, i, k) &&
              ParseSelector(sels[k]).Query? && find(ParseSelector(sels[k]).lookup) == Some(n)
            case BadSelector(k, parts) =>
              i <= k < |sels| && MissesBetween(sels, find, i, k) && ParseSelector(sels[k]) == UnpackError(parts)
            case Miss => true
    ensures FirstMatchFrom(sels, find, i).Miss? <==> MissesBetween(sels, find, i, |sels|)
    decreases |sels| - i
  {
    if i < |sels| {
      var p := ParseSelector(sels[i]);
      if p.UnpackError? {
        ConsultedRaised(sels, find, i);
      } else if find(p.lookup).Some? {
        ConsultedHit(sels, find, i);
      } else {
        ConsultedStep(sels, find, i);
        FirstMatchMeaning(sels, find, i + 1);
        match FirstMatchFrom(sels, find, i + 1)
        case Hit(k, _) => MissesExtend(sels, find, i, k);
        case BadSelector(k, _) => MissesExtend(sels, find, i, k);
        case Miss => MissesExtend(sels, find, i, |sels|);
      }
    }
  }

  /** A selector that parses and misses extends a run of misses after it. */
  lemma MissesExtend<N>(sels: seq<string>, find: Lookup -> Option<N>, i: nat, k: nat)
    requires i < k <= |sels| && MissesBetween(sels, find, i + 1, k)
    requires ParseSelector(sels[i]).Query? && find(ParseSelector(sels[i]).lookup).None?
    ensures MissesBetween(sels, find, i, k)
  {
  }

  /** The lookups the loop hands to `soup.find`, in order, from selector `i` on. */
  function ConsultedFrom<N(==)>(sels: seq<string>, find: Lookup -> Option<N>, i: nat): seq<Lookup>
    requires i <= |sels|
    decreases |sels| - i
  {
    if i == |sels| then []
    else match ParseSelector(sels[i])
      case UnpackError(_) => []
      case Query(l) =>
        if find(l).Some? then [l] else [l] + ConsultedFrom(sels, find, i + 1)
  }

  /** The loop consults every selector up to and including the one that finds
      a node, none from one that raises on, and all of them when all miss. */
  lemma {:induction false} ConsultedLength<N>(sels: seq<string>, find: Lookup -> Option<N>, i: nat)
    requires i <= |sels|
    ensures |ConsultedFrom(sels, find, i)| == match FirstMatchFrom(sels, find, i)
                                             case Hit(k, _) => k + 1 - i
                                             case BadSelector(k, _) => k - i
                                             case Miss => |sels| - i
    decreases |sels| - i
  {
    if i < |sels| && ParseSelector(sels[i]).Query? && find(ParseSelector(sels[i]).lookup).None? {
      ConsultedStep(sels, find, i);
      ConsultedLength(sels, find, i + 1);
    }
  }

  /** Each lookup handed to `soup.find` is what its selector parses to. */
  lemma {:induction false} ConsultedAt<N>(sels: seq<string>, find: Lookup -> Option<N>, i: nat, k: nat)
    requires i <= |sels| && k < |ConsultedFrom(sels, find, i)|
    ensures i + k < |sels| && ParseSelector(sels[i + k]) == Query(ConsultedFrom(sels, find, i)[k])
    decreases k
  {
    assert i < |sels| && ParseSelector(sels[i]).Query?;
    if k > 0 {
      assert find(ParseSelector(sels[i]).lookup).None?;
      ConsultedStep(sels, find, i);
      ConsultedAt(sels, find, i + 1, k - 1);
      assert ConsultedFrom(sels, find, i)[k] == ConsultedFrom(sels, find, i + 1)[k - 1];
    }
  }

  /** A selector that parses and finds nothing hands its lookup to `soup.find`
      and the loop moves on. */
  lemma ConsultedStep<N>(sels: seq<string>, find: Lookup -> Option<N>, i: nat)
    requires i < |sels| && ParseSelector(sels[i]).Query?
    requires find(ParseSelector(sels[i]).lookup).None?
    ensures ConsultedFrom(sels, find, i) == [ParseSelector(sels[i]).lookup] + ConsultedFrom(sels, find, i + 1)
    ensures FirstMatchFrom(sels, find, i) == FirstMatchFrom(sels, find, i + 1)
  {
  }

  lemma AppendShift<T>(front: seq<T>, x: T, rest: seq<T>)
    ensures front + ([x] + rest) == (front + [x]) + rest
  {
  }

  /** The chosen content area. */
  datatype Area<N> = Found(node: N) | NotFound | SelectorRaised(parts: nat)

  const Body := ByTag("body")

  /** The content area: the node of the first selector that finds one,
      otherwise `<body>`. */
  function ContentArea<N(==)>(sels: seq<string>, find: Lookup -> Option<N>): (r: Area<N>)
    ensures r.NotFound? <==> MissesBetween(sels, find, 0, |sels|) && find(Body).None?
    ensures r.Found? ==> exists l :: find(l) == Some(r.node)
  {
    FirstMatchMeaning(sels, find, 0);
    match FirstMatchFrom(sels, find, 0)
    case Hit(_, n) => Found(n)
    case BadSelector(_, parts) => SelectorRaised(parts)
    case Miss => if find(Body).Some? then Found(find(Body).value) else NotFound
  }

  /** Every `soup.find` call made while choosing the content area. */
  function Consulted<N(==)>(sels: seq<string>, find: Lookup -> Option<N>): (r: seq<Lookup>)
    ensures |r| <= |sels| + 1
    ensures FirstMatchFrom(sels, find, 0).Miss? ==> |r| == |sels| + 1 && r[|sels|] == Body
  {
    ConsultedLength(sels, find, 0);
    FirstMatchMeaning(sels, find, 0);
    ConsultedFrom(sels, find, 0) + if FirstMatchFrom(sels, find, 0).Miss? then [Body] else []
  }

  /** The area is the hit of the earliest selector that finds a node; every
      earlier selector found nothing; `<body>` is used only when all missed. */
  lemma ContentAreaFirstHit<N>(sels: seq<string>, find: Lookup -> Option<N>, k: nat, n: N)
    requires k < |sels| && MissesBetween(sels, find, 0, k)
    requires ParseSelector(sels[k]).Query? && find(ParseSelector(sels[k]).lookup) == Some(n)
    ensures ContentArea(sels, find) == Found(n)
    ensures |Consulted(sels, find)| == k + 1
  {
    SkipMisses(sels, find, 0, k);
    ConsultedLength(sels, find, 0);
  }

  /** Selectors that find nothing are passed over. */
  lemma {:induction false} SkipMisses<N>(sels: seq<string>, find: Lookup -> Option<N>, i: nat, k: nat)
    requires i <= k <= |sels| && MissesBetween(sels, find, i, k)
    ensures FirstMatchFrom(sels, find, i) == FirstMatchFrom(sels, find, k)
    decreases k - i
  {
    if i < k {
      assert ParseSelector(sels[i]).Query? && find(ParseSelector(sels[i]).lookup).None?;
      SkipMisses(sels, find, i + 1, k);
    }
  }

  /** With the fixed selector list, whose entries all parse and none to `<body>`,
      the lookups end with `<body>` exactly when every selector missed. */
  lemma BodyLastExactlyAfterMisses<N>(find: Lookup -> Option<N>)
    ensures var c := Consulted(Selectors, find);
            (c != [] && c[|c| - 1] == Body) <==> FirstMatchFrom(Selectors, find, 0).Miss?
  {
    var c := Consulted(Selectors, find);
    var m := FirstMatchFrom(Selectors, find, 0);
    if !m.Miss? {
      SelectorsDispatch();
      FirstMatchMeaning(Selectors, find, 0);
      assert m.Hit? by {
        if m.BadSelector? {
          assert ParseSelector(Selectors[m.index]).Query?;
        }
      }
      ConsultedLength(Selectors, find, 0);
      assert c == ConsultedFrom(Selectors, find, 0) && |c| == m.index + 1;
      ConsultedAt(Selectors, find, 0, m.index);
      assert c[m.index] == SelectorLookups[m.index];
      assert forall j :: 0 <= j < |SelectorLookups| ==> SelectorLookups[j] != Body;
    }
  }

  /** The content-area choice of `fetch_content`: the selector loop, then the
      fallback to `<body>` when every selector missed. */
  method SelectContentArea<N(==)>(sels: seq<string>, find: Lookup -> Option<N>)
    returns (area: Area<N>, consulted: seq<Lookup>)
    ensures area == ContentArea(sels, find)
    ensures consulted == Consulted(sels, find)
  {
    var m;
    m, consulted := TrySelectors(sels, find);
    match m
    case Hit(_, n) =>
      area := Found(n);
    case BadSelector(_, parts) =>
      area := SelectorRaised(parts);
    case Miss =>
      var body := find(Body);
      consulted := consulted + [Body];
      area := if body.Some? then Found(body.value) else NotFound;
  }

  /** The selector loop of `fetch_content`: tries each selector in turn and
      stops at the first that finds a node or raises. */
  method TrySelectors<N(==)>(sels: seq<string>, find: Lookup -> Option<N>)
    returns (m: Match<N>, consulted: seq<Lookup>)
    ensures m == FirstMatchFrom(sels, find, 0)
    ensures consulted == ConsultedFrom(sels, find, 0)
  {
    consulted := [];
    var i := 0;
    while i < |sels|
      invariant 0 <= i <= |sels|
      invariant FirstMatchFrom(sels, find, 0) == FirstMatchFrom(sels, find, i)
      invariant ConsultedFrom(sels, find, 0) == consulted + ConsultedFrom(sels, find, i)
    {
      var parsed := ParseSelector(sels[i]);
      if parsed.UnpackError? {
        ConsultedRaised(sels, find, i);
        assert consulted + [] == consulted;
        return BadSelector(i, parsed.parts), consulted;
      }
      ghost var before := consulted;
      consulted := consulted + [parsed.lookup];
      var contentArea := find(parsed.lookup);
      if contentArea.Some? {
        ConsultedHit(sels, find, i);
        return Hit(i, contentArea.value), consulted;
      }
      ConsultedStep(sels, find, i);
      AppendShift(before, parsed.lookup, ConsultedFrom(sels, find, i + 1));
      i := i + 1;
    }
    ConsultedEnd(sels, find);
    assert consulted + [] == consulted;
    m := Miss;
  }

  /** A selector that raises ends the loop with nothing more consulted. */
  lemma ConsultedRaised<N>(sels: seq<string>, find: Lookup -> Option<N>, i: nat)
    requires i < |sels| && ParseSelector(sels[i]).UnpackError?
    ensures ConsultedFrom(sels, find, i) == []
    ensures FirstMatchFrom(sels, find, i) == BadSelector(i, ParseSelector(sels[i]).parts)
  {
  }

  /** A selector that finds a node is the last one consulted. */
  lemma ConsultedHit<N>(sels: seq<string>, find: Lookup -> Option<N>, i: nat)
    requires i < |sels| && ParseSelector(sels[i]).Query?
    requires find(ParseSelector(sels[i]).lookup).Some?
    ensures ConsultedFrom(sels, find, i) == [ParseSelector(sels[i]).lookup]
    ensures FirstMatchFrom(sels, find, i) == Hit(i, find(ParseSelector(sels[i]).lookup).value)
  {
  }

  /** Past the last selector nothing is consulted and nothing matched. */
  lemma ConsultedEnd<N>(sels: seq<string>, find: Lookup -> Option<N>)
    ensures ConsultedFrom(sels, find, |sels|) == []
    ensures FirstMatchFrom(sels, find, |sels|) == Miss
  {
  }

  // ---------------------------------------------------------------------------
  // Text normalisation

  /** `[line.strip() for line in lines if line.strip()]`. */
  function CleanLines(lines: seq<string>): (r: seq<string>)
    ensures |r| <= |lines|
    ensures forall k :: 0 <= k < |r| ==> r[k] != "" && IsStripped(r[k])
    ensures (forall k :: 0 <= k < |lines| ==> '\n' !in lines[k]) ==>
              forall k :: 0 <= k < |r| ==> '\n' !in r[k]
    decreases |lines|
  {
    if lines == [] then []
    else
      var line := Strip(lines[0]);
      StripByChars(lines[0], IsSpace, '\n');
      (if line == "" then [] else [line]) + CleanLines(lines[1..])
  }

  /** Cleaning keeps the order of lines: cleaning a concatenation is the
      concatenation of the cleaned parts. */
  lemma {:induction false} CleanLinesAppend(a: seq<string>, b: seq<string>)
    ensures CleanLines(a + b) == CleanLines(a) + CleanLines(b)
    decreases |a|
  {
    if a != [] {
      var head := if Strip(a[0]) == "" then [] else [Strip(a[0])];
      assert a == [a[0]] + a[1..];
      assert a + b == [a[0]] + (a[1..] + b);
      CleanLinesCons(a[0], a[1..]);
      CleanLinesCons(a[0], a[1..] + b);
      CleanLinesAppend(a[1..], b);
      AppendAssoc(head, CleanLines(a[1..]), CleanLines(b));
    } else {
      assert a + b == b;
    }
  }

  /** Cleaning handles the first line on its own. */
  lemma CleanLinesCons(line: string, rest: seq<string>)
    ensures CleanLines([line] + rest) == (if Strip(line) == "" then [] else [Strip(line)]) + CleanLines(rest)
  {
    assert ([line] + rest)[1..] == rest;
  }

  /** A line survives cleaning, stripped, exactly when it is not blank. */
  lemma {:induction false} CleanLinesSingle(line: string)
    ensures CleanLines([line]) == if Strip(line) == "" then [] else [Strip(line)]
  {
    assert [line][1..] == [];
  }

  const ParagraphBreak := "\n\n"

  /** `'\n\n'.join(lines)` after cleaning `text.split('\n')`. */
  function NormalizeText(text: string): (r: string)
    ensures IsStripped(r)
  {
    var lines := CleanLines(Split(text, '\n'));
    JoinStripped(lines);
    Join(lines, ParagraphBreak)
  }

  /** Joining stripped, non-empty lines gives a stripped string. */
  lemma {:induction false} JoinStripped(lines: seq<string>)
    requires forall k :: 0 <= k < |lines| ==> lines[k] != "" && IsStripped(lines[k])
    ensures IsStripped(Join(lines, ParagraphBreak))
    ensures lines != [] ==> Join(lines, ParagraphBreak) != ""
    decreases |lines|
  {
    if |lines| > 1 {
      JoinStripped(lines[1..]);
      var tail := Join(lines[1..], ParagraphBreak);
      var s := lines[0] + ParagraphBreak + tail;
      assert s[0] == lines[0][0];
      assert s[|s| - 1] == tail[|tail| - 1];
    }
  }

  /** The lines a joined text splits back into: each line followed by the
      empty line between the two newlines of a paragraph break. */
  function Spaced(lines: seq<string>): seq<string>
    decreases |lines|
  {
    if |lines| <= 1 then lines else [lines[0], ""] + Spaced(lines[1..])
  }

  /** Lines joined by `"\n\n"` split on `'\n'` into exactly the lines with one
      empty string between each two. */
  lemma {:induction false} SplitJoined(lines: seq<string>)
    requires lines != []
    requires forall k :: 0 <= k < |lines| ==> '\n' !in lines[k]
    ensures Split(Join(lines, ParagraphBreak), '\n') == Spaced(lines)
    decreases |lines|
  {
    if |lines| == 1 {
      SplitWithout(lines[0], '\n');
    } else {
      var tail := Join(lines[1..], ParagraphBreak);
      assert Join(lines, ParagraphBreak) == lines[0] + ParagraphBreak + tail;
      SplitJoined(lines[1..]);
      SplitBreak(lines[0], tail);
    }
  }

  /** A line without newlines, a paragraph break and the rest split into the
      line, an empty line and the rest's lines. */
  lemma SplitBreak(line: string, tail: string)
    requires '\n' !in line
    ensures Split(line + ParagraphBreak + tail, '\n') == [line, ""] + Split(tail, '\n')
  {
    assert line + ParagraphBreak + tail == line + ['\n'] + (['\n'] + tail);
    SplitAround(line, ['\n'] + tail, '\n');
    SplitWithout(line, '\n');
    SplitConsSep(tail, '\n');
  }

  /** Cleaning the spaced lines drops the empty strings and nothing else. */
  lemma {:induction false} CleanSpaced(lines: seq<string>)
    requires forall k :: 0 <= k < |lines| ==> lines[k] != "" && IsStripped(lines[k])
    ensures CleanLines(Spaced(lines)) == lines
    decreases |lines|
  {
    if |lines| == 1 {
      StripByTrimmed(lines[0], IsSpace);
      CleanLinesSingle(lines[0]);
    } else if |lines| > 1 {
      CleanSpaced(lines[1..]);
      CleanLinesAppend([lines[0], ""], Spaced(lines[1..]));
      CleanPair(lines[0]);
      assert lines == [lines[0]] + lines[1..];
    }
  }

  /** A line followed by the empty line of a paragraph break cleans to the line. */
  lemma CleanPair(line: string)
    requires line != "" && IsStripped(line)
    ensures CleanLines([line, ""]) == [line]
  {
    StripByTrimmed(line, IsSpace);
    CleanLinesSingle(line);
    CleanLinesSingle("");
    assert Strip("") == "";
    CleanLinesAppend([line], [""]);
    assert [line, ""] == [line] + [""];
  }

  /** Reading the normalised text back line by line recovers exactly the
      cleaned lines of the original: normalised text holds the lines in order,
      separated by exactly `"\n\n"`. */
  lemma LinesOfNormalized(text: string)
    ensures CleanLines(Split(NormalizeText(text), '\n')) == CleanLines(Split(text, '\n'))
  {
    var lines := CleanLines(Split(text, '\n'));
    if lines == [] {
      assert NormalizeText(text) == "";
      assert Split("", '\n') == [""];
      assert Strip("") == "";
      assert CleanLines([""]) == [] + CleanLines([""][1..]);
    } else {
      SplitPartsLackSep(text, '\n');
      SplitJoined(lines);
      CleanSpaced(lines);
    }
  }

  /** Normalisation is idempotent. */
  lemma NormalizeIdempotent(text: string)
    ensures NormalizeText(NormalizeText(text)) == NormalizeText(text)
  {
    LinesOfNormalized(text);
  }

  // ---------------------------------------------------------------------------
  // fetch_content

  /** What `soup.title` holds: no `<title>`, one whose `.string` is text, or
      one whose `.string` is `None` (it has several children or none). */
  datatype TitleElement = NoTitle | TitleText(text: string) | TitleWithoutString

  /** The parsed page, seen through the calls `fetch_content` makes on it. */
  datatype Page<!N> = Page(
    visibleTextLength: nat,          // len(soup.get_text(strip=True))
    title: TitleElement,             // soup.title
    find: Lookup -> Option<N>,       // soup.find after the boilerplate tags are removed
    text: N -> string)               // node.get_text(separator='\n', strip=True)

  /** The outcome of downloading (HTTP) or rendering (browser) the page. */
  datatype Download<!N> = Loaded(page: Page<N>) | DownloadRaised(message: string)

  /** The external calls `fetch_content` makes, in order. */
  datatype Call = HttpGet | RenderInBrowser | Find(lookup: Lookup)

  datatype FetchMethod = Requests | Selenium

  /** The value of the record's `method` key. */
  function MethodName(m: FetchMethod): (r: string)
    ensures r == "selenium" <==> m.Selenium?
    ensures r == "requests" <==> m.Requests?
  {
    match m
    case Requests => "requests"
    case Selenium => "selenium"
  }

  /** Why a crawl failed. */
  datatype Failure =
    | InvalidUrl
    | NeedsJavaScript
    | NoContentArea
    | TooShort(length: nat, debugDumpExists: bool)
    | Raised(message: string, trace: string)

  /** The message of the exception raised by `.strip()` on a missing title string. */
  const NoTitleStringMessage := "'NoneType' object has no attribute 'strip'"

  /** The message of the exception raised by `key, val = ...` on `parts` values. */
  function UnpackMessage(parts: nat): (r: string)
    ensures parts < 2 ==> |r| >= 2 && r[|r| - 2] == DigitChar(parts) && r[|r| - 1] == ')'
  {
    if parts < 2 then "not enough values to unpack (expected 2, got " + Decimal(parts) + ")"
    else "too many values to unpack (expected 2)"
  }

  const MinPageTextLength := 500
  const MinContentLength := 100
  const DebugHint := "Check debug_last_fetch.html saved in app folder."

  /** The label of the browser-rendering switch the pre-check message points to. */
  const JavaScriptOption := "Use JavaScript Rendering"

  /** The record's `error` text. */
  function ErrorMessage(f: Failure): (m: string)
    ensures m != ""
    ensures f.Raised? ==> f.message + "\n" <= m && |m| <= |f.message| + 1 + 200
  {
    match f
    case InvalidUrl => "Invalid URL format"
    case NeedsJavaScript => "Content too short. Enable \"" + JavaScriptOption + "\" for this site."
    case NoContentArea => "No content area found"
    case TooShort(n, dump) => "Content too short (" + Decimal(n) + " chars). " + (if dump then DebugHint else "")
    case Raised(m, t) => m + "\n" + (if |t| <= 200 then t else t[..200])
  }

  /** The failure after the pre-check names the browser path. */
  lemma NeedsJavaScriptMessage()
    ensures Contains(ErrorMessage(NeedsJavaScript), JavaScriptOption)
  {
    ContainsMiddle("Content too short. Enable \"", JavaScriptOption, "\" for this site.");
  }

  /** The too-short message starts with the length in decimal, read back as `n`. */
  lemma TooShortMessage(n: nat, dump: bool)
    ensures var prefix := "Content too short (" + Decimal(n) + " chars). ";
            prefix <= ErrorMessage(TooShort(n, dump)) &&
            DecimalValue(prefix[19..|prefix| - 9]) == n
  {
    var prefix := "Content too short (" + Decimal(n) + " chars). ";
    assert prefix[19..|prefix| - 9] == Decimal(n);
    DecimalRoundTrip(n);
  }

  /** The record `fetch_content` returns. */
  datatype CrawlResult =
    | Crawled(url: string, title: string, content: string, length: nat, fetchMethod: FetchMethod)
    | Failed(failure: Failure)

  function TitleOf(t: TitleElement): (r: string)
    requires !t.TitleWithoutString?
    ensures IsStripped(r)
    ensures t.TitleText? && IsStripped(t.text) ==> r == t.text
  {
    if t.TitleText? then
      assert IsStripped(t.text) ==> Strip(t.text) == t.text by {
        if IsStripped(t.text) {
          StripByTrimmed(t.text, IsSpace);
        }
      }
      Strip(t.text)
    else "Untitled"
  }

  /** The pre-check passed and the title could be read: selection runs. */
  predicate Extracts<N>(parsed: Option<UrlParts>, useSelenium: bool, download: Download<N>) {
    ValidUrl(parsed) && download.Loaded? &&
    (useSelenium || download.page.visibleTextLength >= MinPageTextLength) &&
    !download.page.title.TitleWithoutString?
  }

  /** `fetch_content(url)`. `parsed` is `urlparse(url)` (`None` if it raised),
      `download` the page or the exception of the HTTP or browser path,
      `debugDumpExists` whether `debug_last_fetch.html` exists and `trace` the
      text of the traceback of whatever exception is caught. */
  method FetchContent<N(==)>(url: string, parsed: Option<UrlParts>, useSelenium: bool,
                             download: Download<N>, debugDumpExists: bool, trace: string)
    returns (r: CrawlResult, calls: seq<Call>)
    // invalid URLs are refused before any fetch
    ensures r == Failed(InvalidUrl) <==> !ValidUrl(parsed)
    ensures !ValidUrl(parsed) <==> calls == []
    ensures ValidUrl(parsed) ==> calls[0] == if useSelenium then RenderInBrowser else HttpGet
    // an exception while fetching becomes a failure record
    ensures ValidUrl(parsed) && download.DownloadRaised? ==>
              r == Failed(Raised(download.message, trace)) && |calls| == 1
    // the 500-character pre-check of the HTTP path; nothing is extracted after it
    ensures r == Failed(NeedsJavaScript) <==>
              ValidUrl(parsed) && !useSelenium && download.Loaded? &&
              download.page.visibleTextLength < MinPageTextLength
    ensures r == Failed(NeedsJavaScript) ==> calls == [HttpGet]
    // a `<title>` without a string raises inside the try block
    ensures ValidUrl(parsed) && download.Loaded? &&
            (useSelenium || download.page.visibleTextLength >= MinPageTextLength) &&
            download.page.title.TitleWithoutString? ==>
              r == Failed(Raised(NoTitleStringMessage, trace)) && |calls| == 1
    // extraction
    ensures Extracts(parsed, useSelenium, download) ==>
              var page := download.page;
              calls[1..] == seq(|Consulted(Selectors, page.find)|,
                                k requires 0 <= k < |Consulted(Selectors, page.find)| =>
                                  Find(Consulted(Selectors, page.find)[k])) &&
              match ContentArea(Selectors, page.find)
              case NotFound => r == Failed(NoContentArea)
              case SelectorRaised(parts) => r == Failed(Raised(UnpackMessage(parts), trace))
              case Found(node) =>
                var text := NormalizeText(page.text(node));
                if |text| < MinContentLength then r == Failed(TooShort(|text|, debugDumpExists))
                else r == Crawled(url, TitleOf(page.title), text, |text|,
                                  if useSelenium then Selenium else Requests)
    // what every success record satisfies
    ensures r.Crawled? ==> r.url == url && r.length == |r.content| && r.length >= MinContentLength
    ensures r.Crawled? ==> (r.fetchMethod == Selenium <==> useSelenium)
    ensures r.Crawled? && download.page.title.NoTitle? ==> r.title == "Untitled"
    ensures r.Crawled? ==> Extracts(parsed, useSelenium, download)
  {
    if !ValidUrl(parsed) {
      return Failed(InvalidUrl), [];
    }
    calls := [if useSelenium then RenderInBrowser else HttpGet];
    if download.DownloadRaised? {
      return Failed(Raised(download.message, trace)), calls;
    }
    var page := download.page;
    if !useSelenium && page.visibleTextLength < MinPageTextLength {
      return Failed(NeedsJavaScript), calls;
    }
    if page.title.TitleWithoutString? {
      return Failed(Raised(NoTitleStringMessage, trace)), calls;
    }
    var title := TitleOf(page.title);

    var area, consulted := SelectContentArea(Selectors, page.find);
    calls := calls + seq(|consulted|, k requires 0 <= k < |consulted| => Find(consulted[k]));
    match area {
      case SelectorRaised(parts) =>
        return Failed(Raised(UnpackMessage(parts), trace)), calls;
      case NotFound =>
        return Failed(NoContentArea), calls;
      case Found(node) =>
        var text := NormalizeText(page.text(node));
        if |text| < MinContentLength {
          return Failed(TooShort(|text|, debugDumpExists)), calls;
        }
        r := Crawled(url, title, text, |text|, if useSelenium then Selenium else Requests);
    }
  }
}
