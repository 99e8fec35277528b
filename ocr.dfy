/**
 * The post-processing of `ocr_recognize`: what the handler does with the
 * detections EasyOCR returns for an uploaded nameplate photo. Detections
 * above a confidence threshold become lines, highest confidence first; a
 * machine name is picked by keyword priority, with fallbacks; the other
 * lines become the machine information.
 */
module Ocr {
  import opened Wrappers
  import opened Strings
  import opened DataUrl

  /** One EasyOCR detection `(bbox, text, confidence)`; the bounding box is never looked at. */
  datatype Detection = Detection(text: string, confidence: real)

  /** An entry of `text_items`: a detection's stripped text and its confidence. */
  datatype TextItem = TextItem(text: string, confidence: real)

  /** What the reader produced for the decoded image: detections, or the exception it raised. */
  datatype Recognition = Recognized(detections: seq<Detection>) | Raised(reason: string)

  /** The JSON body of a successful response. */
  datatype Report = Report(fullText: string, machineName: string, machineInfo: string, confidence: real)

  /** The handler's error responses (HTTP 503, 400 and 500). */
  datatype OcrError = OcrUnavailable | NoImageData | RecognitionFailed(reason: string)

  /** Detections at or below this confidence are dropped. */
  const Threshold: real := 0.3

  /** Lines no longer than this are preferred as a fallback name. */
  const ShortLineLength: nat := 30

  /** The confidence reported when it is lower than every detection's. */
  const ConfidenceCap: real := 0.5

  /** Keyword groups, highest priority first (the repeated keyword of the second group is as in the handler). */
  const NameKeywords: seq<seq<string>> := [
    ["型号", "Model"],
    ["编号", "No.", "NO.", "编号"],
    ["名称", "Name"],
    ["设备", "Equipment"],
    ["机", "Machine"],
    ["变压器", "Transformer"],
    ["开关", "Switch"],
    ["断路器", "Breaker"]
  ]

  // ----- Filtering: text_items -----

  function ItemOf(d: Detection): TextItem
  {
    TextItem(Strip(d.text), d.confidence)
  }

  /** `text_items` as the filtering loop leaves it. */
  function Confident(ds: seq<Detection>): seq<TextItem>
  {
    if ds == [] then []
    else
      var d := ds[|ds| - 1];
      Confident(ds[..|ds| - 1]) + (if d.confidence > Threshold then [ItemOf(d)] else [])
  }

  /** The items kept are exactly the stripped detections whose confidence is above the threshold. */
  lemma {:induction false} ConfidentMembers(ds: seq<Detection>, t: TextItem)
    ensures t in Confident(ds) <==>
      exists k :: 0 <= k < |ds| && ds[k].confidence > Threshold && t == ItemOf(ds[k])
  {
    if ds != [] {
      var n := |ds| - 1;
      var front, d := ds[..n], ds[n];
      var tail := if d.confidence > Threshold then [ItemOf(d)] else [];
      assert Confident(ds) == Confident(front) + tail;
      assert t in Confident(ds) <==> t in Confident(front) || t in tail;
      ConfidentMembers(front, t);
      assert forall k :: 0 <= k < n ==> front[k] == ds[k];
    }
  }

  /** The loop at the head of the post-processing: keep and strip the confident detections. */
  method CollectTextItems(ds: seq<Detection>) returns (items: seq<TextItem>)
    ensures items == Confident(ds)
  {
    items := [];
    for i := 0 to |ds|
      invariant items == Confident(ds[..i])
    {
      if ds[i].confidence > Threshold {
        items := items + [TextItem(Strip(ds[i].text), ds[i].confidence)];
      }
      assert ds[..i + 1][..i] == ds[..i];
    }
    assert ds[..|ds|] == ds;
  }

  // ----- Ordering: text_items.sort(key=confidence, reverse=True) -----

  /** Place `x` before the first item whose confidence is not above its own. */
  function InsertByConfidence(x: TextItem, s: seq<TextItem>): seq<TextItem>
  {
    if s == [] then [x]
    else if s[0].confidence > x.confidence then [s[0]] + InsertByConfidence(x, s[1..])
    else [x] + s
  }

  lemma {:induction false} InsertByConfidencePermutation(x: TextItem, s: seq<TextItem>)
    ensures multiset(InsertByConfidence(x, s)) == multiset(s) + multiset{x}
  {
    if s != [] && s[0].confidence > x.confidence {
      InsertByConfidencePermutation(x, s[1..]);
      assert s == [s[0]] + s[1..];
    }
  }

  /** Python's stable sort by confidence, highest first. */
  function SortByConfidence(s: seq<TextItem>): seq<TextItem>
  {
    if s == [] then [] else InsertByConfidence(s[0], SortByConfidence(s[1..]))
  }

  /** The sorted items are a permutation of the items. */
  lemma {:induction false} SortByConfidencePermutation(s: seq<TextItem>)
    ensures multiset(SortByConfidence(s)) == multiset(s)
  {
    if s != [] {
      SortByConfidencePermutation(s[1..]);
      InsertByConfidencePermutation(s[0], SortByConfidence(s[1..]));
      assert s == [s[0]] + s[1..];
    }
  }

  ghost predicate ByConfidenceDesc(s: seq<TextItem>)
  {
    forall i, j :: 0 <= i < j < |s| ==> s[i].confidence >= s[j].confidence
  }

  /** Every item of an insertion is the inserted item or an item of `s`. */
  lemma {:induction false} InsertByConfidenceMembers(x: TextItem, s: seq<TextItem>)
    ensures forall y :: y in InsertByConfidence(x, s) ==> y == x || y in s
  {
    if s != [] && s[0].confidence > x.confidence {
      InsertByConfidenceMembers(x, s[1..]);
      forall y | y in s[1..] ensures y in s {
        var j :| 0 <= j < |s[1..]| && s[1..][j] == y;
        assert s[j + 1] == y;
      }
    }
  }

  /** An ordered list stays ordered when an item at least as confident as all of it goes in front. */
  lemma ConsByConfidence(h: TextItem, rest: seq<TextItem>)
    requires ByConfidenceDesc(rest)
    requires forall y :: y in rest ==> h.confidence >= y.confidence
    ensures ByConfidenceDesc([h] + rest)
  {
    var r := [h] + rest;
    forall i, j | 0 <= i < j < |r| ensures r[i].confidence >= r[j].confidence {
      assert r[j] == rest[j - 1];
      if i == 0 {
        assert rest[j - 1] in rest;
      } else {
        assert r[i] == rest[i - 1];
      }
    }
  }

  lemma {:induction false} InsertByConfidenceOrdered(x: TextItem, s: seq<TextItem>)
    requires ByConfidenceDesc(s)
    ensures ByConfidenceDesc(InsertByConfidence(x, s))
  {
    if s == [] {
      assert InsertByConfidence(x, s) == [x];
    } else if s[0].confidence > x.confidence {
      var rest := InsertByConfidence(x, s[1..]);
      assert ByConfidenceDesc(s[1..]) by {
        forall i, j | 0 <= i < j < |s[1..]| ensures s[1..][i].confidence >= s[1..][j].confidence {
          assert s[1..][i] == s[i + 1] && s[1..][j] == s[j + 1];
        }
      }
      InsertByConfidenceOrdered(x, s[1..]);
      InsertByConfidenceMembers(x, s[1..]);
      forall y | y in rest ensures s[0].confidence >= y.confidence {
        if y != x {
          var j :| 0 <= j < |s[1..]| && s[1..][j] == y;
          assert s[j + 1] == y;
        }
      }
      ConsByConfidence(s[0], rest);
    } else {
      forall y | y in s ensures x.confidence >= y.confidence {
        var j :| 0 <= j < |s| && s[j] == y;
        if j > 0 { assert s[0].confidence >= s[j].confidence; }
      }
      ConsByConfidence(x, s);
    }
  }

  /** The sorted items run from the highest confidence to the lowest. */
  lemma {:induction false} SortByConfidenceOrdered(s: seq<TextItem>)
    ensures ByConfidenceDesc(SortByConfidence(s))
  {
    if s != [] {
      SortByConfidenceOrdered(s[1..]);
      InsertByConfidenceOrdered(s[0], SortByConfidence(s[1..]));
    }
  }

  /** The items of `s` with confidence `c`, in their order in `s`. */
  function WithConfidence(s: seq<TextItem>, c: real): seq<TextItem>
  {
    if s == [] then []
    else (if s[0].confidence == c then [s[0]] else []) + WithConfidence(s[1..], c)
  }

  lemma WithConfidenceCons(y: TextItem, s: seq<TextItem>, c: real)
    ensures WithConfidence([y] + s, c) == (if y.confidence == c then [y] else []) + WithConfidence(s, c)
  {
    assert ([y] + s)[0] == y && ([y] + s)[1..] == s;
  }

  lemma {:induction false} InsertWithConfidence(x: TextItem, s: seq<TextItem>, c: real)
    ensures WithConfidence(InsertByConfidence(x, s), c)
         == (if x.confidence == c then [x] else []) + WithConfidence(s, c)
  {
    if s == [] {
      WithConfidenceCons(x, [], c);
      assert [x] + [] == [x];
    } else if s[0].confidence > x.confidence {
      var y := s[0];
      var rest := InsertByConfidence(x, s[1..]);
      assert InsertByConfidence(x, s) == [y] + rest;
      InsertWithConfidence(x, s[1..], c);
      WithConfidenceCons(y, rest, c);
      assert s == [y] + s[1..];
      WithConfidenceCons(y, s[1..], c);
      assert y.confidence == c ==> x.confidence != c;
    } else {
      assert InsertByConfidence(x, s) == [x] + s;
      WithConfidenceCons(x, s, c);
    }
  }

  /** The sort is stable: items of equal confidence keep their relative order. */
  lemma {:induction false} SortByConfidenceStable(s: seq<TextItem>, c: real)
    ensures WithConfidence(SortByConfidence(s), c) == WithConfidence(s, c)
  {
    if s != [] {
      SortByConfidenceStable(s[1..], c);
      InsertWithConfidence(s[0], SortByConfidence(s[1..]), c);
    }
  }

  /** `all_text`: the texts of the kept detections, highest confidence first. */
  function Lines(ds: seq<Detection>): seq<string>
  {
    var items := SortByConfidence(Confident(ds));
    seq(|items|, i requires 0 <= i < |items| => items[i].text)
  }

  ghost predicate Stripped(lines: seq<string>)
  {
    forall l :: l in lines ==> Strip(l) == l
  }

  /** Every line is already stripped, so `line.strip()` in the keyword loop changes nothing. */
  lemma LinesStripped(ds: seq<Detection>)
    ensures Stripped(Lines(ds))
  {
    var items := SortByConfidence(Confident(ds));
    SortByConfidencePermutation(Confident(ds));
    forall l | l in Lines(ds) ensures Strip(l) == l {
      var i :| 0 <= i < |items| && items[i].text == l;
      assert items[i] in multiset(Confident(ds));
      ConfidentMembers(ds, items[i]);
      var k :| 0 <= k < |ds| && ds[k].confidence > Threshold && items[i] == ItemOf(ds[k]);
      StripIdempotent(ds[k].text);
    }
  }

  /** With no line containing a newline, `full_text` splits back into the lines. */
  lemma FullTextSplitsIntoLines(ds: seq<Detection>)
    requires Lines(ds) != []
    requires forall l :: l in Lines(ds) ==> '\n' !in l
    ensures Split(Join(Lines(ds), '\n'), '\n') == Lines(ds)
  {
    SplitJoin(Lines(ds), '\n');
  }

  // ----- The machine name -----

  /** `any(keyword in line for keyword in keywords)`. */
  predicate MatchesGroup(line: string, group: seq<string>)
  {
    exists k :: k in group && Contains(line, k)
  }

  /** The first line containing a keyword of `group`. */
  function FirstMatching(lines: seq<string>, group: seq<string>): (r: Option<nat>)
    ensures r.Some? ==> r.value < |lines| && MatchesGroup(lines[r.value], group)
    ensures r.Some? ==> forall j :: 0 <= j < r.value ==> !MatchesGroup(lines[j], group)
    ensures r.None? ==> forall j :: 0 <= j < |lines| ==> !MatchesGroup(lines[j], group)
  {
    if lines == [] then None
    else if MatchesGroup(lines[0], group) then Some(0)
    else match FirstMatching(lines[1..], group)
      case Some(i) => Some(i + 1)
      case None => None
  }

  /** The name the keyword loops settle on, or "" when none of the groups yields one. */
  function KeywordName(groups: seq<seq<string>>, lines: seq<string>): string
    decreases |groups|
  {
    if groups == [] then ""
    else match FirstMatching(lines, groups[0])
      case Some(i) => if Strip(lines[i]) != "" then Strip(lines[i]) else KeywordName(groups[1..], lines)
      case None => KeywordName(groups[1..], lines)
  }

  /** The lines of at most `ShortLineLength` characters, in order. */
  function ShortLines(lines: seq<string>): seq<string>
  {
    if lines == [] then []
    else (if |lines[0]| <= ShortLineLength then [lines[0]] else []) + ShortLines(lines[1..])
  }

  /** The name used when no keyword matched: the first short line, else the first line. */
  function FallbackName(lines: seq<string>): string
  {
    var short := ShortLines(lines);
    if short != [] then short[0] else if lines != [] then lines[0] else ""
  }

  /** `machine_name`. */
  function MachineName(lines: seq<string>): string
  {
    if lines == [] then ""
    else
      var k := KeywordName(NameKeywords, lines);
      if k != "" then k else FallbackName(lines)
  }

  /**
   * One round of the outer keyword loop: when the inner loop stops at line
   * `i` (or runs off the end), the first group decides the name exactly
   * when that line strips to something non-empty.
   */
  lemma KeywordNameStep(groups: seq<seq<string>>, lines: seq<string>, i: nat)
    requires groups != [] && i <= |lines|
    requires forall j :: 0 <= j < i ==> !MatchesGroup(lines[j], groups[0])
    requires i < |lines| ==> MatchesGroup(lines[i], groups[0])
    ensures i < |lines| && Strip(lines[i]) != "" ==> KeywordName(groups, lines) == Strip(lines[i])
    ensures !(i < |lines| && Strip(lines[i]) != "") ==> KeywordName(groups, lines) == KeywordName(groups[1..], lines)
  {
    FirstMatchingAt(lines, groups[0], i);
  }

  /** The inner keyword loop: the index of the first line matching `keywords`, or `|lines|` when none does. */
  method FindMatchingLine(lines: seq<string>, keywords: seq<string>) returns (i: nat)
    ensures i <= |lines|
    ensures FirstMatching(lines, keywords) == if i < |lines| then Some(i) else None
  {
    i := 0;
    while i < |lines|
      invariant 0 <= i <= |lines|
      invariant forall j :: 0 <= j < i ==> !MatchesGroup(lines[j], keywords)
    {
      if MatchesGroup(lines[i], keywords) {
        break;
      }
      i := i + 1;
    }
    FirstMatchingAt(lines, keywords, i);
  }

  /** The first match is at `i` when no earlier line matches and line `i` (if any) does. */
  lemma FirstMatchingAt(lines: seq<string>, group: seq<string>, i: nat)
    requires i <= |lines|
    requires forall j :: 0 <= j < i ==> !MatchesGroup(lines[j], group)
    requires i < |lines| ==> MatchesGroup(lines[i], group)
    ensures FirstMatching(lines, group) == if i < |lines| then Some(i) else None
  {
    if i < |lines| {
      assert FirstMatching(lines, group) == Some(i);
    } else {
      assert FirstMatching(lines, group).None?;
    }
  }

  /** The keyword loops and the fallback that choose `machine_name`. */
  method ChooseMachineName(lines: seq<string>) returns (name: string)
    ensures name == MachineName(lines)
  {
    name := "";
    if lines == [] {
      return;
    }
    var g := 0;
    while g < |NameKeywords|
      invariant 0 <= g <= |NameKeywords|
      invariant name == ""
      invariant KeywordName(NameKeywords, lines) == KeywordName(NameKeywords[g..], lines)
    {
      var keywords := NameKeywords[g];
      var i := FindMatchingLine(lines, keywords);
      if i < |lines| {
        name := Strip(lines[i]);
      }
      assert NameKeywords[g..][0] == keywords && NameKeywords[g..][1..] == NameKeywords[g + 1..];
      KeywordNameStep(NameKeywords[g..], lines, i);
      if name != "" {
        break;
      }
      g := g + 1;
    }
    if name == "" {
      var short := ShortLines(lines);
      if short != [] {
        name := short[0];
      } else {
        name := lines[0];
      }
    }
  }

  ghost predicate Visible(groups: seq<seq<string>>)
  {
    forall g :: 0 <= g < |groups| ==> forall k :: k in groups[g] ==> k != [] && !IsSpace(k[0])
  }

  lemma NameKeywordsVisible()
    ensures Visible(NameKeywords)
  {
  }

  /** A line containing a keyword that starts with a non-space character does not strip to "". */
  lemma MatchKeepsLine(line: string, group: seq<string>)
    requires forall k :: k in group ==> k != [] && !IsSpace(k[0])
    requires MatchesGroup(line, group)
    ensures Strip(line) != ""
  {
    var k :| k in group && Contains(line, k);
    ContainsIff(line, k);
    var i :| OccursAt(line, k, i);
    assert line[i] == line[i..i + |k|][0];
    StripEmptyIff(line);
  }

  lemma {:induction false} KeywordNameFirstGroup(groups: seq<seq<string>>, lines: seq<string>, g: nat, i: nat)
    requires Visible(groups)
    requires g < |groups| && i < |lines|
    requires forall h, j :: 0 <= h < g && 0 <= j < |lines| ==> !MatchesGroup(lines[j], groups[h])
    requires MatchesGroup(lines[i], groups[g])
    requires forall j :: 0 <= j < i ==> !MatchesGroup(lines[j], groups[g])
    ensures KeywordName(groups, lines) == Strip(lines[i])
    decreases g
  {
    if g == 0 {
      MatchKeepsLine(lines[i], groups[0]);
      assert FirstMatching(lines, groups[0]) == Some(i);
    } else {
      assert forall j :: 0 <= j < |lines| ==> !MatchesGroup(lines[j], groups[0]);
      assert FirstMatching(lines, groups[0]).None?;
      KeywordNameFirstGroup(groups[1..], lines, g - 1, i);
    }
  }

  lemma {:induction false} KeywordNameNoMatch(groups: seq<seq<string>>, lines: seq<string>)
    requires forall h, j :: 0 <= h < |groups| && 0 <= j < |lines| ==> !MatchesGroup(lines[j], groups[h])
    ensures KeywordName(groups, lines) == ""
    decreases |groups|
  {
    if groups != [] {
      assert forall j :: 0 <= j < |lines| ==> !MatchesGroup(lines[j], groups[0]);
      assert FirstMatching(lines, groups[0]).None?;
      KeywordNameNoMatch(groups[1..], lines);
    }
  }

  /**
   * Group `g` is the highest-priority group any line matches, and line `i`
   * is the first line that matches it.
   */
  ghost predicate FirstKeywordHit(lines: seq<string>, g: nat, i: nat)
  {
    && g < |NameKeywords| && i < |lines|
    && (forall h, j :: 0 <= h < g && 0 <= j < |lines| ==> !MatchesGroup(lines[j], NameKeywords[h]))
    && MatchesGroup(lines[i], NameKeywords[g])
    && (forall j :: 0 <= j < i ==> !MatchesGroup(lines[j], NameKeywords[g]))
  }

  /**
   * Keyword priority: the name is the first line, in confidence order, that
   * contains a keyword of the highest-priority group any line matches.
   */
  lemma MachineNameByKeyword(lines: seq<string>, g: nat, i: nat)
    requires FirstKeywordHit(lines, g, i)
    ensures MachineName(lines) == Strip(lines[i]) != ""
  {
    NameKeywordsVisible();
    KeywordNameFirstGroup(NameKeywords, lines, g, i);
    MatchKeepsLine(lines[i], NameKeywords[g]);
  }

  /** When some line contains some keyword, a first group and a first line in it exist. */
  lemma {:induction false} SomeKeywordMatches(lines: seq<string>, g0: nat, i0: nat)
    requires g0 < |NameKeywords| && i0 < |lines|
    requires MatchesGroup(lines[i0], NameKeywords[g0])
    ensures exists g: nat, i: nat :: g <= g0 && FirstKeywordHit(lines, g, i) && MachineName(lines) == Strip(lines[i]) != ""
    decreases g0
  {
    var earlier := exists h, j :: 0 <= h < g0 && 0 <= j < |lines| && MatchesGroup(lines[j], NameKeywords[h]);
    if earlier {
      var h, j :| 0 <= h < g0 && 0 <= j < |lines| && MatchesGroup(lines[j], NameKeywords[h]);
      SomeKeywordMatches(lines, h, j);
    } else {
      var m := FirstMatching(lines, NameKeywords[g0]);
      var i := m.value;
      assert FirstKeywordHit(lines, g0, i);
      MachineNameByKeyword(lines, g0, i);
    }
  }

  /** With no keyword anywhere, the name is the first short line, else the first line, else "". */
  lemma MachineNameFallback(lines: seq<string>)
    requires forall h, j :: 0 <= h < |NameKeywords| && 0 <= j < |lines| ==> !MatchesGroup(lines[j], NameKeywords[h])
    ensures MachineName(lines) == FallbackName(lines)
  {
    KeywordNameNoMatch(NameKeywords, lines);
  }

  /** The first short line is the earliest line of at most `ShortLineLength` characters. */
  lemma {:induction false} ShortLinesFirst(lines: seq<string>, i: nat)
    requires i < |lines| && |lines[i]| <= ShortLineLength
    requires forall j :: 0 <= j < i ==> |lines[j]| > ShortLineLength
    ensures ShortLines(lines) != [] && ShortLines(lines)[0] == lines[i]
  {
    if i > 0 {
      ShortLinesFirst(lines[1..], i - 1);
    }
  }

  /** There is no short line exactly when every line is longer than `ShortLineLength`. */
  lemma {:induction false} ShortLinesEmptyIff(lines: seq<string>)
    ensures ShortLines(lines) == [] <==> forall j :: 0 <= j < |lines| ==> |lines[j]| > ShortLineLength
  {
    if lines != [] {
      ShortLinesEmptyIff(lines[1..]);
      assert forall j :: 0 < j < |lines| ==> lines[j] == lines[1..][j - 1];
    }
  }

  /** On stripped lines the chosen name is "" or one of the lines. */
  lemma {:induction false} MachineNameIsLine(lines: seq<string>)
    requires Stripped(lines)
    ensures MachineName(lines) == "" || MachineName(lines) in lines
  {
    if lines != [] {
      var k := KeywordName(NameKeywords, lines);
      if k != "" {
        KeywordNameIsStrippedLine(NameKeywords, lines);
      } else {
        ShortLinesSubset(lines);
      }
    }
  }

  lemma {:induction false} KeywordNameIsStrippedLine(groups: seq<seq<string>>, lines: seq<string>)
    ensures KeywordName(groups, lines) == "" || exists l :: l in lines && KeywordName(groups, lines) == Strip(l)
    decreases |groups|
  {
    if groups != [] {
      KeywordNameIsStrippedLine(groups[1..], lines);
      match FirstMatching(lines, groups[0])
      case Some(i) => assert lines[i] in lines;
      case None =>
    }
  }

  lemma {:induction false} ShortLinesSubset(lines: seq<string>)
    ensures forall l :: l in ShortLines(lines) ==> l in lines && |l| <= ShortLineLength
  {
    if lines != [] {
      ShortLinesSubset(lines[1..]);
    }
  }

  // ----- The machine information -----

  /** `[line for line in all_text if line != machine_name]`. */
  function Without(lines: seq<string>, name: string): seq<string>
  {
    if lines == [] then []
    else (if lines[0] != name then [lines[0]] else []) + Without(lines[1..], name)
  }

  /**
   * The remaining lines are the lines other than the name, each as often as
   * in `lines`; fewer when the name is a line, all of them when it is not.
   */
  lemma {:induction false} WithoutMembers(lines: seq<string>, name: string)
    ensures forall l :: l in Without(lines, name) <==> l in lines && l != name
    ensures multiset(Without(lines, name)) == multiset(lines)[name := 0]
    ensures |Without(lines, name)| <= |lines|
    ensures name in lines ==> |Without(lines, name)| < |lines|
    ensures name !in lines ==> Without(lines, name) == lines
  {
    if lines != [] {
      WithoutMembers(lines[1..], name);
      assert lines == [lines[0]] + lines[1..];
      assert forall l :: l in lines <==> l == lines[0] || l in lines[1..];
    }
  }

  /**
   * Filtering keeps the order of the lines: the remaining lines of a
   * concatenation are the remaining lines of each part, in turn.
   */
  lemma {:induction false} WithoutAppend(a: seq<string>, b: seq<string>, name: string)
    ensures Without(a + b, name) == Without(a, name) + Without(b, name)
  {
    if a == [] {
      assert a + b == b;
    } else {
      var head := if a[0] != name then [a[0]] else [];
      var ab := a + b;
      assert ab != [] && ab[0] == a[0] && ab[1..] == a[1..] + b;
      assert Without(ab, name) == head + Without(a[1..] + b, name);
      WithoutAppend(a[1..], b, name);
      assert Without(a, name) == head + Without(a[1..], name);
      assert head + (Without(a[1..], name) + Without(b, name))
          == (head + Without(a[1..], name)) + Without(b, name);
    }
  }

  /** `machine_info`. */
  function MachineInfo(lines: seq<string>, name: string): string
  {
    var full := Join(lines, '\n');
    if lines == [] then full
    else if name != "" && name in lines then
      var remaining := Without(lines, name);
      if remaining != [] then Strip(Join(remaining, '\n')) else full
    else if |lines| > 1 then Strip(Join(lines[1..], '\n'))
    else full
  }

  /** The body of the response for the given detections. */
  function ReportOf(ds: seq<Detection>): Report
  {
    var lines := Lines(ds);
    var name := MachineName(lines);
    Report(Join(lines, '\n'), name, MachineInfo(lines, name), MinConfidence(ds))
  }

  /** `min([conf for _, _, conf in results] + [0.5])`. */
  function MinConfidence(ds: seq<Detection>): (r: real)
    ensures r <= ConfidenceCap
    ensures forall k :: 0 <= k < |ds| ==> r <= ds[k].confidence
    ensures r == ConfidenceCap || exists k :: 0 <= k < |ds| && r == ds[k].confidence
  {
    if ds == [] then ConfidenceCap
    else
      var m := MinConfidence(ds[1..]);
      assert forall k :: 1 <= k < |ds| ==> ds[k] == ds[1..][k - 1];
      if ds[0].confidence < m then ds[0].confidence else m
  }

  /** With no detection above the threshold every text field of the report is "". */
  lemma ReportWithoutLines(ds: seq<Detection>)
    requires forall k :: 0 <= k < |ds| ==> ds[k].confidence <= Threshold
    ensures ReportOf(ds).fullText == "" && ReportOf(ds).machineName == "" && ReportOf(ds).machineInfo == ""
  {
    if Confident(ds) != [] {
      ConfidentMembers(ds, Confident(ds)[0]);
    }
  }

  /**
   * A non-empty name is always one of the lines, so the information is the
   * other lines joined and stripped, or the full text when no other line
   * remains; the `else` branch of the handler is reached only with an empty name.
   */
  lemma NamedReportInfo(ds: seq<Detection>)
    requires ReportOf(ds).machineName != ""
    ensures var lines, r := Lines(ds), ReportOf(ds);
      && r.machineName in lines
      && r.machineInfo == (if Without(lines, r.machineName) != [] then Strip(Join(Without(lines, r.machineName), '\n')) else r.fullText)
  {
    LinesStripped(ds);
    MachineNameIsLine(Lines(ds));
  }

  /** The handler from the reader check to the response. */
  method Recognize(readerReady: bool, image: Option<string>, recognize: string -> Recognition)
    returns (r: Result<Report, OcrError>)
    ensures !readerReady ==> r == Failure(OcrUnavailable)
    ensures readerReady && (image.None? || image.value == "") ==> r == Failure(NoImageData)
    ensures readerReady && image.Some? && image.value != "" ==>
      match recognize(StripDataUrlPrefix(image.value))
      case Raised(reason) => r == Failure(RecognitionFailed(reason))
      case Recognized(ds) => r == Success(ReportOf(ds))
  {
    if !readerReady {
      return Failure(OcrUnavailable);
    }
    if image.None? || image.value == "" {
      return Failure(NoImageData);
    }
    var payload := StripDataUrlPrefix(image.value);
    match recognize(payload)
    case Raised(reason) =>
      r := Failure(RecognitionFailed(reason));
    case Recognized(ds) =>
      var items := CollectTextItems(ds);
      var sorted := SortByConfidence(items);
      var lines := seq(|sorted|, i requires 0 <= i < |sorted| => sorted[i].text);
      var fullText := Join(lines, '\n');
      var name := ChooseMachineName(lines);
      var info := MachineInfo(lines, name);
      r := Success(Report(fullText, name, info, MinConfidence(ds)));
  }
}
