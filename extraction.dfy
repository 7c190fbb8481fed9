/**
 * `extract_emergency_details`: the rule-based labelling of a transcript with
 * a category (by counting keyword hits), a severity (by keyword precedence
 * with a default), a location (the text after a marker word) and the
 * recommended action from a fixed table.
 */
module Extraction {
  import opened PyText

  /** A keyword table: labels with their keywords, in declaration (and iteration) order. */
  type Table = seq<(string, seq<string>)>

  const Categories: Table := [
    ("medical", ["ambulance", "heart", "breathing", "blood", "injury", "hurt", "pain", "sick"]),
    ("fire", ["fire", "smoke", "burning", "flames", "heat"]),
    ("police", ["police", "crime", "theft", "robbery", "attack", "weapon", "gun", "knife"]),
    ("traffic", ["accident", "crash", "collision", "car", "vehicle", "road", "highway"])
  ]

  const SeverityLevels: Table := [
    ("high", ["emergency", "critical", "severe", "dying", "death", "urgent", "immediately"]),
    ("medium", ["serious", "bad", "significant", "concerning"]),
    ("low", ["minor", "small", "little", "not serious"])
  ]

  const LocationMarkers: seq<string> := ["at", "in", "near", "on", "by"]

  /** The recommended action per category and severity. */
  const Actions: map<string, map<string, string>> := map[
    "medical" := map[
      "high" := "Dispatch ambulance immediately with paramedics",
      "medium" := "Dispatch ambulance with standard crew",
      "low" := "Advise caller on first aid and dispatch medical assistance"],
    "fire" := map[
      "high" := "Dispatch fire brigade with full equipment immediately",
      "medium" := "Dispatch fire brigade with standard equipment",
      "low" := "Send fire assessment team"],
    "police" := map[
      "high" := "Dispatch armed police units immediately",
      "medium" := "Dispatch police patrol",
      "low" := "File police report and schedule follow-up"],
    "traffic" := map[
      "high" := "Dispatch ambulance, police, and traffic management",
      "medium" := "Dispatch police and traffic management",
      "low" := "Dispatch traffic management team"],
    "unknown" := map[
      "high" := "Dispatch emergency assessment team immediately",
      "medium" := "Dispatch assessment team",
      "low" := "Schedule follow-up call"]
  ]

  /** The dictionary `extract_emergency_details` returns. */
  datatype Details = Details(category: string, severity: string, location: string, action: string)

  /** `keyword.lower() in transcript.lower()`, with `lowered` the lowered transcript. */
  predicate Hit(lowered: string, keyword: string) {
    Contains(lowered, LowerStr(keyword))
  }

  /** `sum(1 for keyword in keywords if keyword.lower() in transcript.lower())`. */
  function HitCount(keywords: seq<string>, lowered: string): (n: nat)
    ensures n <= |keywords|
  {
    if keywords == [] then 0
    else (if Hit(lowered, keywords[0]) then 1 else 0) + HitCount(keywords[1..], lowered)
  }

  /** `any(keyword.lower() in transcript.lower() for keyword in keywords)`. */
  predicate AnyHit(keywords: seq<string>, lowered: string) {
    keywords != [] && (Hit(lowered, keywords[0]) || AnyHit(keywords[1..], lowered))
  }

  /** The count is zero exactly when no keyword hits, and `any` holds exactly when it is positive. */
  lemma {:induction false} HitCountZero(keywords: seq<string>, lowered: string)
    ensures HitCount(keywords, lowered) == 0 <==> forall k :: 0 <= k < |keywords| ==> !Hit(lowered, keywords[k])
    ensures AnyHit(keywords, lowered) <==> HitCount(keywords, lowered) > 0
  {
    if keywords != [] {
      HitCountZero(keywords[1..], lowered);
      assert forall k :: 1 <= k < |keywords| ==> keywords[k] == keywords[1..][k - 1];
    }
  }

  /** The indices of the keywords that occur. */
  ghost function HitIndices(keywords: seq<string>, lowered: string): set<nat> {
    set k: nat | k < |keywords| && Hit(lowered, keywords[k])
  }

  /** The count is the number of distinct keywords that occur, not the number of occurrences. */
  lemma {:induction false} HitCountIsDistinctKeywords(keywords: seq<string>, lowered: string)
    ensures HitCount(keywords, lowered) == |HitIndices(keywords, lowered)|
  {
    if keywords != [] {
      var later := HitIndices(keywords[1..], lowered);
      HitCountIsDistinctKeywords(keywords[1..], lowered);
      HitIndicesCons(keywords, lowered);
      ShiftedSize(later);
      assert 0 !in ShiftSet(later);
    }
  }

  lemma HitIndicesCons(keywords: seq<string>, lowered: string)
    requires keywords != []
    ensures HitIndices(keywords, lowered) ==
              (if Hit(lowered, keywords[0]) then {0} else {}) + ShiftSet(HitIndices(keywords[1..], lowered))
  {
    var tail := keywords[1..];
    var later := HitIndices(tail, lowered);
    forall k: nat | k in HitIndices(keywords, lowered) && k >= 1 ensures k in ShiftSet(later) {
      assert tail[k - 1] == keywords[k];
      assert k - 1 in later;
    }
    forall k | k in ShiftSet(later) ensures k in HitIndices(keywords, lowered) {
      var j :| j in later && k == j + 1;
      assert tail[j] == keywords[k];
    }
  }

  ghost function ShiftSet(s: set<nat>): set<nat> {
    set k | k in s :: k + 1
  }

  lemma {:induction false} ShiftedSize(s: set<nat>)
    ensures |ShiftSet(s)| == |s|
    decreases |s|
  {
    if s != {} {
      var x :| x in s;
      ShiftedSize(s - {x});
      var rest := ShiftSet(s - {x});
      forall y | y in ShiftSet(s) ensures y in rest + {x + 1} {
        var k :| k in s && y == k + 1;
        if k != x {
          assert k in s - {x};
        }
      }
      forall y | y in rest ensures y in ShiftSet(s) {
        var k :| k in s - {x} && y == k + 1;
      }
      assert x + 1 in ShiftSet(s);
      assert ShiftSet(s) == rest + {x + 1};
    }
  }

  /** `(category, max_matches)` after the category loop has visited the first `i` entries of `table`. */
  function CategoryScan(table: Table, lowered: string, i: nat): (string, nat)
    requires i <= |table|
  {
    if i == 0 then ("unknown", 0)
    else
      var (category, maxMatches) := CategoryScan(table, lowered, i - 1);
      var matches := HitCount(table[i - 1].1, lowered);
      if matches > maxMatches then (table[i - 1].0, matches) else (category, maxMatches)
  }

  /** The category `extract_emergency_details` picks for the lowered transcript. */
  function CategoryOf(lowered: string): string {
    CategoryScan(Categories, lowered, |Categories|).0
  }

  /** Entry `w` of the first `i` has strictly more hits than every entry before it and at least as
      many as every entry of the first `i`. */
  ghost predicate FirstMaximal(table: Table, lowered: string, i: nat, w: nat)
    requires i <= |table|
  {
    && w < i
    && (forall j :: 0 <= j < w ==> HitCount(table[j].1, lowered) < HitCount(table[w].1, lowered))
    && (forall j :: 0 <= j < i ==> HitCount(table[j].1, lowered) <= HitCount(table[w].1, lowered))
  }

  /** The index the scan settled on, or -1 while no entry has had a hit. */
  ghost function ScanWinner(table: Table, lowered: string, i: nat): (w: int)
    requires i <= |table|
    ensures -1 <= w < i
  {
    if i == 0 then -1
    else
      var w := ScanWinner(table, lowered, i - 1);
      var matches := HitCount(table[i - 1].1, lowered);
      if matches > CategoryScan(table, lowered, i - 1).1 then i - 1 else w
  }

  /** The scan keeps the first entry with the greatest positive count, and "unknown" while
      no entry has had a hit. */
  lemma {:induction false} ScanFindsFirstMaximal(table: Table, lowered: string, i: nat)
    requires i <= |table|
    ensures var (category, maxMatches) := CategoryScan(table, lowered, i);
            var w := ScanWinner(table, lowered, i);
            && (w < 0 ==> category == "unknown" && maxMatches == 0
                          && forall j :: 0 <= j < i ==> HitCount(table[j].1, lowered) == 0)
            && (w >= 0 ==> && category == table[w].0 && maxMatches == HitCount(table[w].1, lowered)
                           && maxMatches > 0 && FirstMaximal(table, lowered, i, w))
  {
    if i > 0 {
      ScanFindsFirstMaximal(table, lowered, i - 1);
    }
  }

  /** Two first-maximal entries of the same prefix are the same entry. */
  lemma FirstMaximalUnique(table: Table, lowered: string, i: nat, v: nat, w: nat)
    requires i <= |table|
    requires FirstMaximal(table, lowered, i, v) && FirstMaximal(table, lowered, i, w)
    ensures v == w
  {
    var hv := HitCount(table[v].1, lowered);
    var hw := HitCount(table[w].1, lowered);
    assert hv <= hw && hw <= hv;
    assert v < w ==> hv < hw;
    assert w < v ==> hw < hv;
  }

  lemma CategoryLabelsDistinct()
    ensures forall j, k :: 0 <= j < k < |Categories| ==> Categories[j].0 != Categories[k].0
    ensures forall j :: 0 <= j < |Categories| ==> Categories[j].0 != "unknown"
  {
  }

  /** The category is the `w`-th label exactly when that entry has a hit, strictly more hits than
      every earlier entry, and at least as many as every entry: ties go to the earlier entry. */
  lemma CategoryIsFirstMaximal(lowered: string, w: nat)
    requires w < |Categories|
    ensures CategoryOf(lowered) == Categories[w].0 <==>
              HitCount(Categories[w].1, lowered) > 0 && FirstMaximal(Categories, lowered, |Categories|, w)
  {
    var n := |Categories|;
    ScanFindsFirstMaximal(Categories, lowered, n);
    CategoryLabelsDistinct();
    var v := ScanWinner(Categories, lowered, n);
    if CategoryOf(lowered) == Categories[w].0 {
      assert v >= 0;
      assert Categories[v].0 == Categories[w].0;
    }
    if HitCount(Categories[w].1, lowered) > 0 && FirstMaximal(Categories, lowered, n, w) {
      assert v >= 0;
      FirstMaximalUnique(Categories, lowered, n, v, w);
    }
  }

  /** The category is "unknown" exactly when no keyword of any category occurs in the transcript. */
  lemma CategoryUnknownIff(lowered: string)
    ensures CategoryOf(lowered) == "unknown" <==>
              forall j, k :: 0 <= j < |Categories| && 0 <= k < |Categories[j].1| ==> !Hit(lowered, Categories[j].1[k])
  {
    var n := |Categories|;
    ScanFindsFirstMaximal(Categories, lowered, n);
    CategoryLabelsDistinct();
    forall j | 0 <= j < n {
      HitCountZero(Categories[j].1, lowered);
    }
  }

  /** The category is one of the four labels or "unknown". */
  lemma CategoryRange(lowered: string)
    ensures CategoryOf(lowered) in ["medical", "fire", "police", "traffic", "unknown"]
  {
    ScanFindsFirstMaximal(Categories, lowered, |Categories|);
  }

  /** The severity loop from entry `i` on: the label of the first entry with a hit, else "medium". */
  function SeverityFrom(table: Table, lowered: string, i: nat): string
    requires i <= |table|
    decreases |table| - i
  {
    if i == |table| then "medium"
    else if AnyHit(table[i].1, lowered) then table[i].0
    else SeverityFrom(table, lowered, i + 1)
  }

  /** The severity `extract_emergency_details` picks for the lowered transcript. */
  function SeverityOf(lowered: string): string {
    SeverityFrom(SeverityLevels, lowered, 0)
  }

  /** Severity is the first of high, medium, low with a keyword present, otherwise medium:
      a high keyword always wins. */
  lemma SeverityPrecedence(lowered: string)
    ensures SeverityOf(lowered) in ["high", "medium", "low"]
    ensures SeverityOf(lowered) == "high" <==> AnyHit(SeverityLevels[0].1, lowered)
    ensures SeverityOf(lowered) == "low" <==>
              !AnyHit(SeverityLevels[0].1, lowered) && !AnyHit(SeverityLevels[1].1, lowered)
              && AnyHit(SeverityLevels[2].1, lowered)
    ensures (forall j :: 0 <= j < |SeverityLevels| ==> !AnyHit(SeverityLevels[j].1, lowered)) ==>
              SeverityOf(lowered) == "medium"
  {
    assert SeverityFrom(SeverityLevels, lowered, 3) == "medium";
  }

  /** "not serious" contains the medium keyword "serious", which is checked first, so a transcript
      with "not serious" is never rated low: without a high keyword it is rated medium. */
  lemma NotSeriousNeverLow(lowered: string)
    requires Contains(lowered, "not serious")
    ensures SeverityOf(lowered) != "low"
    ensures !AnyHit(SeverityLevels[0].1, lowered) ==> SeverityOf(lowered) == "medium"
  {
    ContainsIff(lowered, "not serious");
    var i :| OccursAt(lowered, "not serious", i);
    assert lowered[i + 4..i + 11] == "not serious"[4..];
    assert OccursAt(lowered, "serious", i + 4);
    ContainsIff(lowered, "serious");
    assert LowerStr("serious") == "serious";
    assert SeverityLevels[1].1[0] == "serious";
    assert AnyHit(SeverityLevels[1].1, lowered);
    SeverityPrecedence(lowered);
  }

  /** `f" {marker} "`. */
  function Separator(marker: string): string {
    " " + marker + " "
  }

  /** `part.split(".")[0].split(",")[0].strip()`. */
  function LocationPart(part: string): string {
    Strip(SplitOn(SplitOn(part, ".")[0], ",")[0])
  }

  /** `len(location_part) > 3 and len(location_part.split()) <= 5`. */
  predicate Qualifies(location: string) {
    |location| > 3 && |SplitWs(location)| <= 5
  }

  /** The marker's separator occurs, the split has a second piece, and that piece yields a
      qualifying location. */
  predicate Candidate(lowered: string, marker: string) {
    var sep := Separator(marker);
    Contains(lowered, sep) && |SplitOn(lowered, sep)| > 1 && Qualifies(LocationPart(SplitOn(lowered, sep)[1]))
  }

  /** The location loop from marker `i` on. */
  function LocationFrom(lowered: string, i: nat): string
    requires i <= |LocationMarkers|
    decreases |LocationMarkers| - i
  {
    if i == |LocationMarkers| then "unknown"
    else
      var sep := Separator(LocationMarkers[i]);
      if Candidate(lowered, LocationMarkers[i])
      then LocationPart(SplitOn(lowered, sep)[1])
      else LocationFrom(lowered, i + 1)
  }

  lemma LocationFromStep(lowered: string, i: nat)
    requires i <= |LocationMarkers|
    ensures i == |LocationMarkers| ==> LocationFrom(lowered, i) == "unknown"
    ensures i < |LocationMarkers| && Candidate(lowered, LocationMarkers[i]) ==>
              LocationFrom(lowered, i) == LocationPart(SplitOn(lowered, Separator(LocationMarkers[i]))[1])
    ensures i < |LocationMarkers| && !Candidate(lowered, LocationMarkers[i]) ==>
              LocationFrom(lowered, i) == LocationFrom(lowered, i + 1)
  {
  }

  /** The location `extract_emergency_details` picks for the lowered transcript. */
  function LocationOf(lowered: string): string {
    LocationFrom(lowered, 0)
  }

  /** Whenever the separator occurs, `split` yields a second piece, so the `len(parts) > 1` guard
      never fails; that piece is the text between the first and second occurrence. */
  lemma SecondPieceExists(lowered: string, marker: string)
    requires Contains(lowered, Separator(marker))
    ensures |SplitOn(lowered, Separator(marker))| > 1
    ensures var sep := Separator(marker);
            var rest := lowered[IndexOf(lowered, sep) + |sep|..];
            var next := IndexOf(rest, sep);
            SplitOn(lowered, sep)[1] == if next < 0 then rest else rest[..next]
  {
    SplitOnSecond(lowered, Separator(marker));
  }

  /** The first marker, in the order at, in, near, on, by, whose fragment qualifies gives the location. */
  lemma {:induction false} LocationIsFirstCandidate(lowered: string, i: nat, w: nat)
    requires i <= w < |LocationMarkers|
    requires Candidate(lowered, LocationMarkers[w])
    requires forall j :: i <= j < w ==> !Candidate(lowered, LocationMarkers[j])
    ensures LocationFrom(lowered, i) == LocationPart(SplitOn(lowered, Separator(LocationMarkers[w]))[1])
    decreases w - i
  {
    if i < w {
      LocationIsFirstCandidate(lowered, i + 1, w);
    }
  }

  /** When no marker qualifies, the location is "unknown". */
  lemma {:induction false} LocationUnknownWhenNoCandidate(lowered: string, i: nat)
    requires i <= |LocationMarkers|
    requires forall j :: i <= j < |LocationMarkers| ==> !Candidate(lowered, LocationMarkers[j])
    ensures LocationFrom(lowered, i) == "unknown"
    decreases |LocationMarkers| - i
  {
    if i < |LocationMarkers| {
      LocationUnknownWhenNoCandidate(lowered, i + 1);
    }
  }

  /** The length of the text before the first '.' or ',' of `part`. */
  function ClauseLen(part: string): (n: nat)
    ensures n <= |part|
  {
    if part == [] || part[0] == '.' || part[0] == ',' then 0 else 1 + ClauseLen(part[1..])
  }

  /** `ClauseLen` stops at the first '.' or ',': none comes before it. */
  lemma {:induction false} ClauseLenSpec(part: string)
    ensures forall k :: 0 <= k < ClauseLen(part) ==> part[k] != '.' && part[k] != ','
    ensures ClauseLen(part) < |part| ==> part[ClauseLen(part)] == '.' || part[ClauseLen(part)] == ','
  {
    if part != [] && part[0] != '.' && part[0] != ',' {
      ClauseLenSpec(part[1..]);
      forall k | 1 <= k < ClauseLen(part) ensures part[k] != '.' && part[k] != ',' {
        assert part[k] == part[1..][k - 1];
      }
    }
  }

  /** Only one cut point has no '.' or ',' before it and one (or the end) at it. */
  lemma ClauseLenUnique(part: string, n: nat)
    requires n <= |part|
    requires forall k :: 0 <= k < n ==> part[k] != '.' && part[k] != ','
    requires n < |part| ==> part[n] == '.' || part[n] == ','
    ensures n == ClauseLen(part)
  {
    ClauseLenSpec(part);
  }

  /** Cutting at the first '.' and then at the first ',' cuts at the first of either. */
  lemma ClauseCut(part: string)
    ensures SplitOn(SplitOn(part, ".")[0], ",")[0] == part[..ClauseLen(part)]
  {
    var d := SplitOnCharFirst(part, '.');
    var byDot := part[..d];
    var c := SplitOnCharFirst(byDot, ',');
    assert byDot[..c] == part[..c];
    forall k | 0 <= k < c ensures part[k] != '.' && part[k] != ',' {
      assert part[k] == byDot[k];
    }
    assert c < d ==> part[c] == byDot[c];
    ClauseLenUnique(part, c);
  }

  /** The location fragment is the stripped text before the first '.' or ',', so a contiguous
      piece of `part`. */
  lemma LocationPartIsClause(part: string)
    ensures LocationPart(part) == Strip(part[..ClauseLen(part)])
    ensures Contains(part, LocationPart(part))
  {
    ClauseCut(part);
    var clause := part[..ClauseLen(part)];
    StripInside(clause);
    PrefixInside(part, ClauseLen(part));
    ContainsTrans(part, clause, Strip(clause));
  }

  /** A location fragment is the text before the first '.' or ',' of its piece, stripped: a
      contiguous piece of it with no '.' or ',' and no whitespace at either end. */
  lemma LocationPartShape(part: string)
    ensures LocationPart(part) == Strip(part[..ClauseLen(part)])
    ensures Contains(part, LocationPart(part))
    ensures '.' !in LocationPart(part) && ',' !in LocationPart(part)
    ensures var r := LocationPart(part); r == [] || (!IsSpace(r[0]) && !IsSpace(r[|r| - 1]))
    ensures forall c :: c in LocationPart(part) ==> c in part
  {
    LocationPartIsClause(part);
    var byDot := SplitOn(part, ".");
    var byComma := SplitOn(byDot[0], ",");
    SplitOnPieces(part, ".");
    SplitOnPieces(byDot[0], ",");
    ContainsChar(byDot[0], '.');
    ContainsChar(byComma[0], ',');
    StripChars(byComma[0]);
    StripSpec(byComma[0]);
  }

  /** "unknown", or a qualifying fragment with no '.' or ',' and no whitespace at either end. */
  predicate ShapedLocation(r: string) {
    || r == "unknown"
    || (&& Qualifies(r) && '.' !in r && ',' !in r
        && !IsSpace(r[0]) && !IsSpace(r[|r| - 1]))
  }

  /** The location is "unknown" or a qualifying fragment: more than three characters, at most five
      words, no '.' or ',', no surrounding whitespace, and made of characters of the transcript. */
  lemma {:induction false} LocationShape(lowered: string, i: nat)
    requires i <= |LocationMarkers|
    ensures var r := LocationFrom(lowered, i);
            ShapedLocation(r) && (r == "unknown" || forall c :: c in r ==> c in lowered)
    decreases |LocationMarkers| - i
  {
    if i < |LocationMarkers| {
      var sep := Separator(LocationMarkers[i]);
      if Candidate(lowered, LocationMarkers[i]) {
        var parts := SplitOn(lowered, sep);
        LocationPartShape(parts[1]);
        SplitOnPieces(lowered, sep);
      } else {
        LocationShape(lowered, i + 1);
      }
    }
  }

  /** A location other than "unknown" is a contiguous piece of the lowered transcript. */
  lemma {:induction false} LocationIsSlice(lowered: string, i: nat)
    requires i <= |LocationMarkers|
    ensures var r := LocationFrom(lowered, i); r == "unknown" || Contains(lowered, r)
    decreases |LocationMarkers| - i
  {
    if i < |LocationMarkers| {
      var sep := Separator(LocationMarkers[i]);
      if Candidate(lowered, LocationMarkers[i]) {
        var part := SplitOn(lowered, sep)[1];
        LocationPartIsClause(part);
        SecondPieceInside(lowered, sep);
        ContainsTrans(lowered, part, LocationPart(part));
      } else {
        LocationIsSlice(lowered, i + 1);
      }
    }
  }

  /** `actions.get(category, actions['unknown']).get(severity, actions['unknown']['medium'])`. */
  function ActionFor(category: string, severity: string): string {
    var row := if category in Actions then Actions[category] else Actions["unknown"];
    if severity in row then row[severity] else Actions["unknown"]["medium"]
  }

  /** The action table is total over the labels the classifier can produce, so the lookup is
      always the table entry and the fallbacks are never used. */
  lemma ActionTableTotal(category: string, severity: string)
    requires category in ["medical", "fire", "police", "traffic", "unknown"]
    requires severity in ["high", "medium", "low"]
    ensures category in Actions && severity in Actions[category]
    ensures ActionFor(category, severity) == Actions[category][severity]
  {
  }

  /** `extract_emergency_details(transcript)`, as a function of the transcript. */
  function ExtractDetails(transcript: string): Details {
    var lowered := LowerStr(transcript);
    var category := CategoryOf(lowered);
    var severity := SeverityOf(lowered);
    Details(category, severity, LocationOf(lowered), ActionFor(category, severity))
  }

  /** The extracted labels come from the tables and the action is the table entry for them. */
  lemma ExtractLabelsSpec(transcript: string)
    ensures var d := ExtractDetails(transcript);
            && d.category in ["medical", "fire", "police", "traffic", "unknown"]
            && d.severity in ["high", "medium", "low"]
            && d.category in Actions && d.severity in Actions[d.category]
            && d.action == Actions[d.category][d.severity]
  {
    var lowered := LowerStr(transcript);
    CategoryRange(lowered);
    SeverityPrecedence(lowered);
    ActionTableTotal(CategoryOf(lowered), SeverityOf(lowered));
  }

  /** The extracted location is "unknown" or a lower-case qualifying fragment of the transcript,
      which holds a newline only if the transcript does. */
  lemma ExtractLocationSpec(transcript: string)
    ensures var r := ExtractDetails(transcript).location;
            && ShapedLocation(r)
            && (forall c :: c in r ==> Lower(c) == c)
            && ('\n' !in transcript ==> '\n' !in r)
            && (r == "unknown" || Contains(LowerStr(transcript), r))
  {
    var lowered := LowerStr(transcript);
    LocationShape(lowered, 0);
    LocationIsSlice(lowered, 0);
    LowerStrChars(transcript);
  }

  /** Every character of a lowered string is lower case, and a newline survives lowering only
      where the original had one. */
  lemma LowerStrChars(s: string)
    ensures forall c :: c in LowerStr(s) ==> Lower(c) == c
    ensures '\n' in LowerStr(s) ==> '\n' in s
  {
    forall c | c in LowerStr(s) ensures Lower(c) == c {
      var k :| 0 <= k < |s| && LowerStr(s)[k] == c;
    }
    if '\n' in LowerStr(s) {
      var k :| 0 <= k < |s| && LowerStr(s)[k] == '\n';
      assert s[k] == '\n';
    }
  }

  /** The category loop of `extract_emergency_details`: keeps the running maximum, so the first
      category with the most hits wins. */
  method ScanCategories(lowered: string) returns (category: string)
    ensures category == CategoryOf(lowered)
  {
    category := "unknown";
    var maxMatches := 0;
    var i := 0;
    while i < |Categories|
      invariant 0 <= i <= |Categories|
      invariant (category, maxMatches) == CategoryScan(Categories, lowered, i)
    {
      var matches := HitCount(Categories[i].1, lowered);
      if matches > maxMatches {
        maxMatches := matches;
        category := Categories[i].0;
      }
      i := i + 1;
    }
  }

  /** The severity loop: stops at the first level with a keyword present. */
  method ScanSeverity(lowered: string) returns (severity: string)
    ensures severity == SeverityOf(lowered)
  {
    severity := "medium";
    var level := 0;
    while level < |SeverityLevels|
      invariant 0 <= level <= |SeverityLevels|
      invariant SeverityFrom(SeverityLevels, lowered, level) == SeverityOf(lowered)
    {
      if AnyHit(SeverityLevels[level].1, lowered) {
        severity := SeverityLevels[level].0;
        return;
      }
      level := level + 1;
    }
  }

  /** The location loop: stops at the first marker whose fragment qualifies. */
  method ScanLocation(lowered: string) returns (location: string)
    ensures location == LocationOf(lowered)
  {
    location := "unknown";
    var m := 0;
    while m < |LocationMarkers|
      invariant 0 <= m <= |LocationMarkers|
      invariant LocationFrom(lowered, m) == LocationOf(lowered)
    {
      LocationFromStep(lowered, m);
      var sep := Separator(LocationMarkers[m]);
      if Contains(lowered, sep) {
        var parts := SplitOn(lowered, sep);
        if |parts| > 1 {
          var locationPart := LocationPart(parts[1]);
          if Qualifies(locationPart) {
            location := locationPart;
            return;
          }
        }
      }
      m := m + 1;
    }
    LocationFromStep(lowered, m);
  }

  /** `extract_emergency_details(transcript)`: lowers the transcript once, runs the three scans
      and looks up the action. */
  method ExtractEmergencyDetails(transcript: string) returns (details: Details)
    ensures details == ExtractDetails(transcript)
  {
    var lowered := LowerStr(transcript);
    var category := ScanCategories(lowered);
    var severity := ScanSeverity(lowered);
    var location := ScanLocation(lowered);
    details := Details(category, severity, location, ActionFor(category, severity));
  }
}
