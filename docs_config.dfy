/**
 * The documentation site configuration of docs/docs.rtems.org/configuration.py:
 * reading titles, latest entries, branches and releases out of the INI file,
 * resolving each release's record, and the release queries.
 *
 * The INI file is given already parsed: each section maps to its (key, value)
 * pairs in file order. A call of ctx.fatal is an Err carrying its message.
 */
module DocsConfig {
  import opened Wrappers
  import Text
  import Ordering

  type Items = seq<(string, string)>
  type Ini = map<string, Items>

  // ---------------------------------------------------------------- today()

  const MonthAbbrevs: seq<string> := [
    "Jan", "Feb", "Mar", "Apr", "May", "Jun", "Jul", "Aug", "Sep", "Oct", "Nov", "Dec"
  ]

  /** The suffix chain of today(): only day 3 gets 'rd'. */
  function DaySuffixAsWritten(day: int): (s: string)
    ensures |s| == 2
  {
    if day == 11 then "th"
    else if day % 10 == 1 then "st"
    else if day == 12 then "th"
    else if day % 10 == 2 then "nd"
    else if day == 13 then "th"
    else if day == 3 then "rd"
    else "th"
  }

  /** The English ordinal suffix of a day of the month. */
  function OrdinalSuffix(day: int): string {
    if 11 <= day % 100 <= 13 then "th"
    else if day % 10 == 1 then "st"
    else if day % 10 == 2 then "nd"
    else if day % 10 == 3 then "rd"
    else "th"
  }

  /** The suffix today() should use: the English ordinal. */
  function DaySuffix(day: int): (s: string)
    requires 1 <= day <= 31
    ensures s == OrdinalSuffix(day)
  {
    if day == 11 || day == 12 || day == 13 then "th"
    else if day % 10 == 1 then "st"
    else if day % 10 == 2 then "nd"
    else if day % 10 == 3 then "rd"
    else "th"
  }

  /** '%2d' % day: the day right-aligned in two columns. */
  function Pad2(day: nat): (r: string)
    ensures day < 100 ==> |r| == 2
    ensures day < 100 ==> (r[0] == ' ' <==> day < 10)
    ensures var d := Text.Decimal(day);
      && |r| == (if |d| < 2 then 2 else |d|) && r[|r| - |d|..] == d
      && forall k :: 0 <= k < |r| - |d| ==> r[k] == ' '
  {
    var d := Text.Decimal(day);
    Text.DecimalSmall(day);
    if day < 10 then
      assert (" " + d)[1..] == d;
      " " + d
    else
      d
  }

  /** The date line today() builds for a given date, with its suffix rule as written. */
  function TodayAsWritten(year: nat, month: int, day: int): (r: string)
    requires 1 <= month <= 12 && 1 <= day <= 31
    ensures |r| >= 5 && r[..2] == Pad2(day) && r[2..4] == DaySuffixAsWritten(day)
    ensures r[4..] == " " + MonthAbbrevs[month - 1] + " " + Text.Decimal(year)
  {
    var pad, suffix, rest := Pad2(day), DaySuffixAsWritten(day), " " + MonthAbbrevs[month - 1] + " " + Text.Decimal(year);
    DateParts(pad, suffix, rest);
    pad + suffix + rest
  }

  /** today() with the corrected suffix. */
  function Today(year: nat, month: int, day: int): (r: string)
    requires 1 <= month <= 12 && 1 <= day <= 31
    ensures |r| >= 5 && r[..2] == Pad2(day) && r[2..4] == OrdinalSuffix(day)
    ensures r[4..] == " " + MonthAbbrevs[month - 1] + " " + Text.Decimal(year)
  {
    var pad, suffix, rest := Pad2(day), DaySuffix(day), " " + MonthAbbrevs[month - 1] + " " + Text.Decimal(year);
    DateParts(pad, suffix, rest);
    pad + suffix + rest
  }

  lemma DateParts(pad: string, suffix: string, rest: string)
    requires |pad| == 2 && |suffix| == 2
    ensures var r := pad + suffix + rest; |r| == 4 + |rest| && r[..2] == pad && r[2..4] == suffix && r[4..] == rest
  {
    var r := pad + suffix + rest;
    assert r[..2] == pad;
    assert r[2..4] == suffix;
    assert r[4..] == rest;
  }

  /** The suffix chain of today() agrees with the English ordinal on every day but the 23rd. */
  lemma DaySuffixOnlyWrongOn23(day: int)
    requires 1 <= day <= 31
    ensures DaySuffixAsWritten(day) == OrdinalSuffix(day) <==> day != 23
  {
  }

  /** On the 23rd of a month, today() writes '23th'. */
  lemma TodayOn23(year: nat, month: int)
    requires 1 <= month <= 12
    ensures TodayAsWritten(year, month, 23)[..4] == "23th"
    ensures Today(year, month, 23)[..4] == "23rd"
  {
    assert Text.Decimal(23) == "23";
    assert Pad2(23) == "23";
    var w, t := TodayAsWritten(year, month, 23), Today(year, month, 23);
    assert w[..4] == w[..2] + w[2..4] && t[..4] == t[..2] + t[2..4];
  }

  // ---------------------------------------------------------------- INI access

  /** The value of the first pair with the key. */
  function Lookup(items: Items, key: string): (r: Option<string>)
    ensures r.Some? <==> exists i :: 0 <= i < |items| && items[i].0 == key
    ensures r.Some? ==> exists i :: (0 <= i < |items| && items[i] == (key, r.value) &&
      forall j :: 0 <= j < i ==> items[j].0 != key)
    decreases |items|
  {
    if items == [] then None
    else if items[0].0 == key then Some(items[0].1)
    else
      var r := Lookup(items[1..], key);
      assert forall i :: 0 < i < |items| ==> items[i] == items[1..][i - 1];
      r
  }

  /** config.get(section, label) with line separators replaced by spaces, None when missing. */
  function Optional(ini: Ini, section: string, key: string): (r: Option<string>)
    ensures r.Some? <==> section in ini && Lookup(ini[section], key).Some?
    ensures r.Some? ==> '\n' !in r.value && r.value == Text.ReplaceChar(Lookup(ini[section], key).value, '\n', ' ')
  {
    if section in ini then
      match Lookup(ini[section], key)
      case Some(v) =>
        var w := Text.ReplaceChar(v, '\n', ' ');
        assert forall i :: 0 <= i < |w| ==> w[i] != '\n';
        Some(w)
      case None => None
    else None
  }

  function NoItem(section: string, key: string): string {
    "config: no " + key + " found in " + section
  }

  /** _get_item(section, label, err): fatal for a missing item only when err is set. */
  function GetItem(ini: Ini, section: string, key: string, err: bool): (r: Result<Option<string>>)
    ensures r.Err? <==> err && Optional(ini, section, key).None?
    ensures r.Err? ==> r.msg == NoItem(section, key)
    ensures r.Ok? ==> r.value == Optional(ini, section, key)
  {
    match Optional(ini, section, key)
    case Some(v) => Ok(Some(v))
    case None => if err then Err(NoItem(section, key)) else Ok(None)
  }

  /** _get_item(section, label) with err set: the item or the fatal error. */
  function Required(ini: Ini, section: string, key: string): (r: Result<string>)
    ensures r.Ok? <==> Optional(ini, section, key).Some?
    ensures r.Ok? ==> r.value == Optional(ini, section, key).value
    ensures r.Err? ==> r.msg == NoItem(section, key)
  {
    var v :- GetItem(ini, section, key, true);
    Ok(v.value)
  }

  /** _get_items(section, err): the section's pairs; fatal or empty when it is missing. */
  function GetItems(ini: Ini, section: string, err: bool): (r: Result<Items>)
    ensures r.Err? <==> err && section !in ini
    ensures r.Err? ==> r.msg == "config: section " + section + " not found"
    ensures r.Ok? ==> r.value == if section in ini then ini[section] else []
  {
    if section in ini then Ok(ini[section])
    else if err then Err("config: section " + section + " not found")
    else Ok([])
  }

  function StripAll(pieces: seq<string>): (r: seq<string>)
    ensures |r| == |pieces| && forall i :: 0 <= i < |r| ==> r[i] == Text.Strip(pieces[i])
  {
    seq(|pieces|, i requires 0 <= i < |pieces| => Text.Strip(pieces[i]))
  }

  /**
   * _comma_list(section, label, error, sort): the stripped comma-separated
   * pieces of an item in order, or sorted without repeats; none for a missing
   * optional item.
   */
  function CommaList(ini: Ini, section: string, key: string, error: bool, sort: bool): (r: Result<seq<string>>)
    ensures r.Err? <==> error && Optional(ini, section, key).None?
    ensures r.Err? ==> r.msg == NoItem(section, key)
    ensures r.Ok? && Optional(ini, section, key).None? ==> r.value == []
    ensures r.Ok? && Optional(ini, section, key).Some? ==>
      var pieces := Text.Split(Optional(ini, section, key).value, ',');
      if sort then
        Ordering.StrictlySorted(r.value) && forall x :: x in r.value <==> x in StripAll(pieces)
      else
        |r.value| == |pieces| && forall i :: 0 <= i < |pieces| ==> r.value[i] == Text.Strip(pieces[i])
  {
    var item :- GetItem(ini, section, key, error);
    if item.None? then Ok([])
    else
      var items := StripAll(Text.Split(item.value, ','));
      if sort then Ok(Ordering.SortedSet(items)) else Ok(items)
  }

  /** An unsorted comma list puts back together into the item, up to the spaces around commas. */
  lemma CommaListPieces(ini: Ini, section: string, key: string, error: bool)
    requires Optional(ini, section, key).Some?
    ensures var r := CommaList(ini, section, key, error, false);
      r.Ok? && r.value != [] && |r.value| == |Text.Split(Optional(ini, section, key).value, ',')|
  {
  }

  // ---------------------------------------------------------------- titles

  const IndexError: string := "IndexError: string index out of range"

  /** The title of a [titles] pair: at most one '"' is dropped from each end. */
  function StripQuotes(v: string): (r: Result<string>)
    ensures r.Err? <==> v == [] || v == "\""
    ensures r.Err? ==> r.msg == IndexError
    ensures r.Ok? ==>
      var lead := if v[0] == '"' then "\"" else "";
      var rest := v[|lead|..];
      var trail := if rest[|rest| - 1] == '"' then "\"" else "";
      v == lead + r.value + trail
  {
    if v == [] then Err(IndexError)
    else
      var t := if v[0] == '"' then v[1..] else v;
      if t == [] then Err(IndexError)
      else if t[|t| - 1] == '"' then
        assert v == (if v[0] == '"' then "\"" else "") + t[..|t| - 1] + "\"";
        Ok(t[..|t| - 1])
      else Ok(t)
  }

  /** A title written with or without surrounding quotes reads back as itself. */
  lemma StripQuotesRoundTrip(t: string)
    requires t != [] && t[0] != '"' && t[|t| - 1] != '"'
    ensures StripQuotes(t) == Ok(t)
    ensures StripQuotes("\"" + t + "\"") == Ok(t)
  {
    var q := "\"" + t + "\"";
    assert q[1..] == t + "\"";
    assert (t + "\"")[..|t|] == t;
  }

  /** The titles dictionary after the loop over the [titles] pairs. */
  function TitlesOf(items: Items): (r: Result<map<string, string>>)
    decreases |items|
  {
    if items == [] then Ok(map[])
    else
      var titles :- TitlesOf(items[..|items| - 1]);
      var last := items[|items| - 1];
      var title :- StripQuotes(last.1);
      Ok(titles[last.0 := title])
  }

  /** Loading the titles succeeds exactly when every value can be stripped. */
  lemma {:induction false} TitlesOfOk(items: Items)
    ensures TitlesOf(items).Ok? <==> forall i :: 0 <= i < |items| ==> StripQuotes(items[i].1).Ok?
    decreases |items|
  {
    if items != [] {
      var init := items[..|items| - 1];
      assert forall i :: 0 <= i < |init| ==> init[i] == items[i];
      TitlesOfOk(init);
    }
  }

  /** The loaded titles are keyed by exactly the keys of the pairs. */
  lemma {:induction false} TitlesOfKeys(items: Items)
    requires TitlesOf(items).Ok?
    ensures forall k :: k in TitlesOf(items).value <==> exists i :: 0 <= i < |items| && items[i].0 == k
    decreases |items|
  {
    if items != [] {
      var init := items[..|items| - 1];
      assert forall i :: 0 <= i < |init| ==> init[i] == items[i];
      TitlesOfKeys(init);
    }
  }

  /** Each key holds the stripped value of its last pair. */
  lemma {:induction false} TitlesOfLast(items: Items, i: int)
    requires TitlesOf(items).Ok? && 0 <= i < |items|
    requires forall j :: i < j < |items| ==> items[j].0 != items[i].0
    ensures StripQuotes(items[i].1).Ok? && items[i].0 in TitlesOf(items).value
    ensures TitlesOf(items).value[items[i].0] == StripQuotes(items[i].1).value
    decreases |items|
  {
    if i < |items| - 1 {
      var init := items[..|items| - 1];
      assert forall j :: 0 <= j < |init| ==> init[j] == items[j];
      TitlesOfLast(init, i);
    }
  }

  /** The latestes dictionary: each key holds the value of its last pair. */
  function LatestOf(items: Items): (r: map<string, string>)
    ensures forall k :: k in r <==> exists i :: 0 <= i < |items| && items[i].0 == k
    decreases |items|
  {
    if items == [] then map[]
    else
      var init := items[..|items| - 1];
      assert forall i :: 0 <= i < |init| ==> init[i] == items[i];
      LatestOf(init)[items[|items| - 1].0 := items[|items| - 1].1]
  }

  /** A key holds the value of its last pair: no later pair has the same key. */
  lemma {:induction false} LatestOfLast(items: Items, i: int)
    requires 0 <= i < |items|
    requires forall j :: i < j < |items| ==> items[j].0 != items[i].0
    ensures items[i].0 in LatestOf(items) && LatestOf(items)[items[i].0] == items[i].1
    decreases |items|
  {
    if i < |items| - 1 {
      var init := items[..|items| - 1];
      assert forall j :: 0 <= j < |init| ==> init[j] == items[j];
      LatestOfLast(init, i);
    }
  }

  // ---------------------------------------------------------------- releases

  /**
   * The record of one release label. A legacy release ('legacy = yes') has its
   * manuals, supplements, optional index_per_doc and its html, pdf and date;
   * any other release keeps its legacy value and has a doxygen setting.
   */
  datatype Release =
    | LegacyRelease(manuals: seq<string>, supplements: seq<string>, indexPerDoc: Option<string>,
                    html: string, pdf: string, date: string)
    | CurrentRelease(legacy: Option<string>, doxygen: string)

  /** An item looked up in the template section first, then in the label's own section. */
  function TemplateOrLabel(ini: Ini, template: string, section: string, key: string): (r: Option<string>)
    ensures Optional(ini, template, key).Some? ==> r == Optional(ini, template, key)
    ensures Optional(ini, template, key).None? ==> r == Optional(ini, section, key)
  {
    match Optional(ini, template, key)
    case Some(v) => Some(v)
    case None => Optional(ini, section, key)
  }

  /** The section a release label takes its settings from: its template, else itself. */
  function Template(ini: Ini, section: string): (r: string)
    ensures Optional(ini, section, "template").Some? ==> r == Optional(ini, section, "template").value
    ensures Optional(ini, section, "template").None? ==> r == section
  {
    Optional(ini, section, "template").GetOr(section)
  }

  /** The first document whose lower-cased name is not a title key. */
  function MissingTitle(docs: seq<string>, titles: map<string, string>): (r: Option<string>)
    ensures r.None? <==> forall i :: 0 <= i < |docs| ==> Text.Lower(docs[i]) in titles
    ensures r.Some? ==> exists i :: (0 <= i < |docs| && docs[i] == r.value && Text.Lower(docs[i]) !in titles &&
      forall j :: 0 <= j < i ==> Text.Lower(docs[j]) in titles)
    decreases |docs|
  {
    if docs == [] then None
    else if Text.Lower(docs[0]) !in titles then Some(docs[0])
    else
      assert forall i :: 0 < i < |docs| ==> docs[i] == docs[1..][i - 1];
      MissingTitle(docs[1..], titles)
  }

  /**
   * The record the loop of load() builds for one release label, or its first
   * fatal error: a missing manuals, html, pdf or date item of a legacy release,
   * or one of its documents without a title.
   */
  function ResolveRelease(ini: Ini, titles: map<string, string>, section: string): (r: Result<Release>)
    ensures var legacy := TemplateOrLabel(ini, Template(ini, section), section, "legacy");
      && (r.Ok? ==> (r.value.LegacyRelease? <==> legacy == Some("yes")))
      && (legacy != Some("yes") ==>
            r == Ok(CurrentRelease(legacy, Optional(ini, Template(ini, section), "doxygen").GetOr("no"))))
    ensures r.Ok? && r.value.LegacyRelease? ==>
      var rel := r.value;
      && CommaList(ini, Template(ini, section), "manuals", true, false) == Ok(rel.manuals)
      && CommaList(ini, Template(ini, section), "supplements", false, false) == Ok(rel.supplements)
      && Optional(ini, section, "html") == Some(rel.html)
      && Optional(ini, section, "pdf") == Some(rel.pdf)
      && Optional(ini, section, "date") == Some(rel.date)
      && rel.indexPerDoc == TemplateOrLabel(ini, Template(ini, section), section, "index_per_doc")
      && forall i :: 0 <= i < |rel.manuals + rel.supplements| ==> Text.Lower((rel.manuals + rel.supplements)[i]) in titles
    ensures (TemplateOrLabel(ini, Template(ini, section), section, "legacy") == Some("yes")
             && Optional(ini, Template(ini, section), "manuals").None?) ==>
              r == Err(NoItem(Template(ini, section), "manuals"))
    ensures TemplateOrLabel(ini, Template(ini, section), section, "legacy") == Some("yes")
            && Optional(ini, Template(ini, section), "manuals").Some? ==>
      && (Optional(ini, section, "html").None? ==> r == Err(NoItem(section, "html")))
      && (Optional(ini, section, "html").Some? && Optional(ini, section, "pdf").None? ==>
            r == Err(NoItem(section, "pdf")))
      && ((Optional(ini, section, "html").Some? && Optional(ini, section, "pdf").Some?
           && Optional(ini, section, "date").None?) ==> r == Err(NoItem(section, "date")))
    ensures TemplateOrLabel(ini, Template(ini, section), section, "legacy") == Some("yes")
            && Optional(ini, Template(ini, section), "manuals").Some? && Optional(ini, section, "html").Some?
            && Optional(ini, section, "pdf").Some? && Optional(ini, section, "date").Some? ==>
      var manuals := CommaList(ini, Template(ini, section), "manuals", true, false).value;
      var supplements := CommaList(ini, Template(ini, section), "supplements", false, false).value;
      && (MissingTitle(manuals + supplements, titles).None? ==>
            r == Ok(LegacyRelease(manuals, supplements, TemplateOrLabel(ini, Template(ini, section), section, "index_per_doc"),
                                  Optional(ini, section, "html").value, Optional(ini, section, "pdf").value,
                                  Optional(ini, section, "date").value)))
      && (MissingTitle(manuals + supplements, titles).Some? ==>
            r == Err("title not found in " + section + ": " + MissingTitle(manuals + supplements, titles).value))
  {
    var template := Template(ini, section);
    var legacy := TemplateOrLabel(ini, template, section, "legacy");
    if legacy == Some("yes") then ResolveLegacy(ini, titles, section, template)
    else Ok(CurrentRelease(legacy, Optional(ini, template, "doxygen").GetOr("no")))
  }

  /** The legacy branch of the release resolution, with the release's template section given. */
  function ResolveLegacy(ini: Ini, titles: map<string, string>, section: string, template: string): (r: Result<Release>)
    ensures r.Ok? ==>
      var rel := r.value;
      && rel.LegacyRelease?
      && CommaList(ini, template, "manuals", true, false) == Ok(rel.manuals)
      && CommaList(ini, template, "supplements", false, false) == Ok(rel.supplements)
      && Optional(ini, section, "html") == Some(rel.html)
      && Optional(ini, section, "pdf") == Some(rel.pdf)
      && Optional(ini, section, "date") == Some(rel.date)
      && rel.indexPerDoc == TemplateOrLabel(ini, template, section, "index_per_doc")
      && forall i :: 0 <= i < |rel.manuals + rel.supplements| ==> Text.Lower((rel.manuals + rel.supplements)[i]) in titles
    ensures Optional(ini, template, "manuals").None? ==> r == Err(NoItem(template, "manuals"))
    ensures Optional(ini, template, "manuals").Some? ==>
      && (Optional(ini, section, "html").None? ==> r == Err(NoItem(section, "html")))
      && (Optional(ini, section, "html").Some? && Optional(ini, section, "pdf").None? ==>
            r == Err(NoItem(section, "pdf")))
      && ((Optional(ini, section, "html").Some? && Optional(ini, section, "pdf").Some?
           && Optional(ini, section, "date").None?) ==> r == Err(NoItem(section, "date")))
    ensures Optional(ini, template, "manuals").Some? && Optional(ini, section, "html").Some?
            && Optional(ini, section, "pdf").Some? && Optional(ini, section, "date").Some? ==>
      var manuals := CommaList(ini, template, "manuals", true, false).value;
      var supplements := CommaList(ini, template, "supplements", false, false).value;
      && (MissingTitle(manuals + supplements, titles).None? ==>
            r == Ok(LegacyRelease(manuals, supplements, TemplateOrLabel(ini, template, section, "index_per_doc"),
                                  Optional(ini, section, "html").value, Optional(ini, section, "pdf").value,
                                  Optional(ini, section, "date").value)))
      && (MissingTitle(manuals + supplements, titles).Some? ==>
            r == Err("title not found in " + section + ": " + MissingTitle(manuals + supplements, titles).value))
  {
    var manuals :- CommaList(ini, template, "manuals", true, false);
    var supplements := CommaList(ini, template, "supplements", false, false).value;
    var indexPerDoc := TemplateOrLabel(ini, template, section, "index_per_doc");
    var html :- Required(ini, section, "html");
    var pdf :- Required(ini, section, "pdf");
    var date :- Required(ini, section, "date");
    match MissingTitle(manuals + supplements, titles)
    case Some(d) => Err("title not found in " + section + ": " + d)
    case None => Ok(LegacyRelease(manuals, supplements, indexPerDoc, html, pdf, date))
  }

  /** The resolution of the label of each [releases] pair. */
  function Resolved(ini: Ini, titles: map<string, string>, rels: Items): (rs: seq<Result<Release>>)
    ensures |rs| == |rels| && forall i :: 0 <= i < |rels| ==> rs[i] == ResolveRelease(ini, titles, rels[i].1)
  {
    seq(|rels|, i requires 0 <= i < |rels| => ResolveRelease(ini, titles, rels[i].1))
  }

  /** Files each resolution under its label in turn, stopping at the first failure. */
  function FileRecords(rels: Items, rs: seq<Result<Release>>): (r: Result<map<string, Release>>)
    requires |rs| == |rels|
    decreases |rels|
  {
    if rels == [] then Ok(map[])
    else
      var records :- FileRecords(rels[..|rels| - 1], rs[..|rs| - 1]);
      var rel :- rs[|rs| - 1];
      Ok(records[rels[|rels| - 1].1 := rel])
  }

  /** The releases dictionary after the loop over the [releases] pairs, keyed by label. */
  function RecordsOf(ini: Ini, titles: map<string, string>, rels: Items): Result<map<string, Release>> {
    FileRecords(rels, Resolved(ini, titles, rels))
  }

  lemma {:induction false} FileRecordsOk(rels: Items, rs: seq<Result<Release>>)
    requires |rs| == |rels|
    ensures FileRecords(rels, rs).Ok? <==> forall i :: 0 <= i < |rs| ==> rs[i].Ok?
    decreases |rels|
  {
    if rels != [] {
      var init := rs[..|rs| - 1];
      assert forall i :: 0 <= i < |init| ==> init[i] == rs[i];
      FileRecordsOk(rels[..|rels| - 1], init);
    }
  }

  lemma {:induction false} FileRecordsKeys(rels: Items, rs: seq<Result<Release>>)
    requires |rs| == |rels| && FileRecords(rels, rs).Ok?
    ensures forall l :: l in FileRecords(rels, rs).value <==> exists i :: 0 <= i < |rels| && rels[i].1 == l
    decreases |rels|
  {
    if rels != [] {
      var init := rels[..|rels| - 1];
      assert forall i :: 0 <= i < |init| ==> init[i] == rels[i];
      FileRecordsKeys(init, rs[..|rs| - 1]);
    }
  }

  /** Every pair of a label carries the same resolution. */
  predicate Consistent(rels: Items, rs: seq<Result<Release>>)
    requires |rs| == |rels|
  {
    forall i, j :: 0 <= i < |rels| && 0 <= j < |rels| && rels[i].1 == rels[j].1 ==> rs[i] == rs[j]
  }

  lemma {:induction false} FileRecordsValue(rels: Items, rs: seq<Result<Release>>, i: int)
    requires |rs| == |rels| && Consistent(rels, rs) && FileRecords(rels, rs).Ok? && 0 <= i < |rels|
    ensures rs[i].Ok? && rels[i].1 in FileRecords(rels, rs).value
    ensures FileRecords(rels, rs).value[rels[i].1] == rs[i].value
    decreases |rels|
  {
    var n := |rels| - 1;
    if i < n && rels[n].1 != rels[i].1 {
      var init, rinit := rels[..n], rs[..n];
      assert forall j :: 0 <= j < n ==> init[j] == rels[j] && rinit[j] == rs[j];
      FileRecordsValue(init, rinit, i);
    }
  }

  lemma {:induction false} FileRecordsStops(rels: Items, rs: seq<Result<Release>>, k: nat)
    requires |rs| == |rels| && k <= |rels| && FileRecords(rels[..k], rs[..k]).Err?
    ensures FileRecords(rels, rs) == FileRecords(rels[..k], rs[..k])
    decreases |rels| - k
  {
    if k < |rels| {
      var n := |rels| - 1;
      assert rels[..n][..k] == rels[..k] && rs[..n][..k] == rs[..k];
      FileRecordsStops(rels[..n], rs[..n], k);
    } else {
      assert rels[..k] == rels && rs[..k] == rs;
    }
  }

  /** Resolving the releases succeeds exactly when every label resolves. */
  lemma RecordsOfOk(ini: Ini, titles: map<string, string>, rels: Items)
    ensures RecordsOf(ini, titles, rels).Ok? <==>
      forall i :: 0 <= i < |rels| ==> ResolveRelease(ini, titles, rels[i].1).Ok?
  {
    FileRecordsOk(rels, Resolved(ini, titles, rels));
  }

  /** The records are keyed by exactly the labels. */
  lemma RecordsOfKeys(ini: Ini, titles: map<string, string>, rels: Items)
    requires RecordsOf(ini, titles, rels).Ok?
    ensures forall l :: l in RecordsOf(ini, titles, rels).value <==> exists i :: 0 <= i < |rels| && rels[i].1 == l
  {
    FileRecordsKeys(rels, Resolved(ini, titles, rels));
  }

  /** Each label holds its own resolution, whichever pair listed it last. */
  lemma RecordsOfValue(ini: Ini, titles: map<string, string>, rels: Items, i: int)
    requires RecordsOf(ini, titles, rels).Ok? && 0 <= i < |rels|
    ensures ResolveRelease(ini, titles, rels[i].1).Ok? && rels[i].1 in RecordsOf(ini, titles, rels).value
    ensures RecordsOf(ini, titles, rels).value[rels[i].1] == ResolveRelease(ini, titles, rels[i].1).value
  {
    FileRecordsValue(rels, Resolved(ini, titles, rels), i);
  }

  // ---------------------------------------------------------------- the configuration

  /** The state load() leaves: titles, latestes, branches, the releases list and the records by label. */
  datatype Config = Config(
    titles: map<string, string>,
    latestes: map<string, string>,
    branches: Items,
    releases: Items,
    records: map<string, Release>)
  {
    /** Every listed release has a record. */
    predicate Valid() {
      forall i :: 0 <= i < |releases| ==> releases[i].1 in records
    }
  }

  /** What load() computes from the INI file, or its first fatal error. */
  function LoadSpec(ini: Ini): Result<Config> {
    var titleItems :- GetItems(ini, "titles", true);
    var titles :- TitlesOf(titleItems);
    var latestItems :- GetItems(ini, "latest", true);
    var branches :- GetItems(ini, "branches", true);
    var rels :- GetItems(ini, "releases", true);
    var records :- RecordsOf(ini, titles, rels);
    Ok(Config(titles, LatestOf(latestItems), branches, rels, records))
  }

  /** A loaded configuration has a record for every release it lists. */
  lemma LoadValid(ini: Ini)
    requires LoadSpec(ini).Ok?
    ensures LoadSpec(ini).value.Valid()
  {
    var rels := ini["releases"];
    var titles := TitlesOf(ini["titles"]).value;
    RecordsOfKeys(ini, titles, rels);
    forall i | 0 <= i < |rels| ensures rels[i].1 in RecordsOf(ini, titles, rels).value {
    }
  }

  /** The loop of load() over the [titles] pairs. */
  method LoadTitles(items: Items) returns (r: Result<map<string, string>>)
    ensures r == TitlesOf(items)
  {
    var titles: map<string, string> := map[];
    var i := 0;
    while i < |items|
      invariant 0 <= i <= |items|
      invariant TitlesOf(items[..i]) == Ok(titles)
    {
      var t := items[i];
      assert items[..i + 1][..i] == items[..i];
      var title := t.1;
      if title == [] {
        TitlesOfStops(items, i + 1);
        return Err(IndexError);
      }
      if title[0] == '"' {
        title := title[1..];
      }
      if title == [] {
        TitlesOfStops(items, i + 1);
        return Err(IndexError);
      }
      if title[|title| - 1] == '"' {
        title := title[..|title| - 1];
      }
      assert StripQuotes(t.1) == Ok(title);
      ghost var prefix := items[..i + 1];
      assert prefix[..|prefix| - 1] == items[..i] && prefix[|prefix| - 1] == t;
      titles := titles[t.0 := title];
      assert TitlesOf(prefix) == Ok(titles);
      i := i + 1;
    }
    assert items[..i] == items;
    return Ok(titles);
  }

  /** The loop of load() over the [latest] pairs. */
  method LoadLatest(items: Items) returns (latestes: map<string, string>)
    ensures latestes == LatestOf(items)
  {
    latestes := map[];
    var i := 0;
    while i < |items|
      invariant 0 <= i <= |items|
      invariant LatestOf(items[..i]) == latestes
    {
      assert items[..i + 1][..i] == items[..i];
      latestes := latestes[items[i].0 := items[i].1];
      i := i + 1;
    }
    assert items[..i] == items;
  }

  /**
   * The releases dictionary of load(): every label resolved, then filed in
   * order; resolving is free of effects, so resolving all labels first gives
   * the same dictionary or the same first error as the loop.
   */
  method LoadRecords(ini: Ini, titles: map<string, string>, rels: Items) returns (r: Result<map<string, Release>>)
    ensures r == RecordsOf(ini, titles, rels)
  {
    var rs := Resolved(ini, titles, rels);
    r := FileAll(rels, rs);
  }

  /** The loop of load() over the [releases] pairs, given the resolution of each label. */
  method FileAll(rels: Items, rs: seq<Result<Release>>) returns (r: Result<map<string, Release>>)
    requires |rs| == |rels|
    ensures r == FileRecords(rels, rs)
  {
    var records: map<string, Release> := map[];
    var i := 0;
    while i < |rels|
      invariant 0 <= i <= |rels|
      invariant FileRecords(rels[..i], rs[..i]) == Ok(records)
    {
      assert rels[..i + 1][..i] == rels[..i] && rs[..i + 1][..i] == rs[..i];
      var sec := rels[i].1;
      var rel := rs[i];
      assert rs[..i + 1][i] == rel;
      if rel.Err? {
        FileRecordsStops(rels, rs, i + 1);
        return Err(rel.msg);
      }
      records := records[sec := rel.value];
      i := i + 1;
    }
    assert rels[..i] == rels && rs[..i] == rs;
    return Ok(records);
  }

  /** load(): the titles, latest, branches and releases sections in that order. */
  method Load(ini: Ini) returns (r: Result<Config>)
    ensures r == LoadSpec(ini)
    ensures r.Ok? ==> r.value.Valid()
  {
    var titleItems :- GetItems(ini, "titles", true);
    var titles :- LoadTitles(titleItems);
    var latestItems :- GetItems(ini, "latest", true);
    var latestes := LoadLatest(latestItems);
    var branches :- GetItems(ini, "branches", true);
    var rels :- GetItems(ini, "releases", true);
    var records :- LoadRecords(ini, titles, rels);
    r := Ok(Config(titles, latestes, branches, rels, records));
    LoadValid(ini);
  }

  lemma {:induction false} TitlesOfStops(items: Items, k: nat)
    requires k <= |items| && TitlesOf(items[..k]).Err?
    ensures TitlesOf(items) == TitlesOf(items[..k])
    decreases |items| - k
  {
    if k < |items| {
      var init := items[..|items| - 1];
      assert init[..k] == items[..k];
      TitlesOfStops(init, k);
    } else {
      assert items[..k] == items;
    }
  }

  // ---------------------------------------------------------------- queries

  /** get_release(release): the first listed release of that name with its record. */
  function GetRelease(c: Config, release: string): (r: Result<(string, string, Release)>)
    requires c.Valid()
    ensures r.Ok? <==> exists i :: 0 <= i < |c.releases| && c.releases[i].0 == release
    ensures r.Err? ==> r.msg == "cannot find release: " + release
    ensures r.Ok? ==> exists i :: (0 <= i < |c.releases| && c.releases[i].0 == release
      && (forall j :: 0 <= j < i ==> c.releases[j].0 != release)
      && r.value == (release, c.releases[i].1, c.records[c.releases[i].1]))
  {
    match Lookup(c.releases, release)
    case None => Err("cannot find release: " + release)
    case Some(sec) => Ok((release, sec, c.records[sec]))
  }

  /** is_legacy_release(release). */
  function IsLegacyRelease(c: Config, release: string): (r: Result<bool>)
    requires c.Valid()
    ensures r.Err? <==> GetRelease(c, release).Err?
    ensures r.Ok? ==> r.value == GetRelease(c, release).value.2.LegacyRelease?
  {
    var (_, _, rel) :- GetRelease(c, release);
    Ok(rel.LegacyRelease?)
  }

  /** is_doxygen_release(release): a legacy record has no doxygen setting. */
  function IsDoxygenRelease(c: Config, release: string): (r: Result<bool>)
    requires c.Valid()
    ensures r.Err? <==> GetRelease(c, release).Err?
    ensures r.Ok? ==> (r.value <==> var rel := GetRelease(c, release).value.2; rel.CurrentRelease? && rel.doxygen == "yes")
  {
    var (_, _, rel) :- GetRelease(c, release);
    if rel.LegacyRelease? then Ok(false) else Ok(rel.doxygen == "yes")
  }

  /** No legacy release is a doxygen release. */
  lemma LegacyIsNotDoxygen(c: Config, release: string)
    requires c.Valid() && IsLegacyRelease(c, release) == Ok(true)
    ensures IsDoxygenRelease(c, release) == Ok(false)
  {
  }

  function Names(rels: Items): (r: seq<string>)
    ensures |r| == |rels| && forall i :: 0 <= i < |rels| ==> r[i] == rels[i].0
  {
    seq(|rels|, i requires 0 <= i < |rels| => rels[i].0)
  }

  /** The names of the listed releases whose record is legacy, in list order. */
  function LegacyNames(c: Config, rels: Items): (r: seq<string>)
    requires forall i :: 0 <= i < |rels| ==> rels[i].1 in c.records
    ensures multiset(r) <= multiset(Names(rels))
    ensures forall n :: n in r <==> IsLegacyName(c, rels, n)
    decreases |rels|
  {
    if rels == [] then []
    else
      var init := rels[..|rels| - 1];
      assert forall i :: 0 <= i < |init| ==> init[i] == rels[i];
      assert Names(rels) == Names(init) + [rels[|rels| - 1].0];
      var last := rels[|rels| - 1];
      LegacyNameSnoc(c, rels);
      LegacyNames(c, init) + (if c.records[last.1].LegacyRelease? then [last.0] else [])
  }

  lemma LegacyNameSnoc(c: Config, rels: Items)
    requires rels != [] && forall i :: 0 <= i < |rels| ==> rels[i].1 in c.records
    ensures var init, last := rels[..|rels| - 1], rels[|rels| - 1];
      forall n :: IsLegacyName(c, rels, n) <==>
        IsLegacyName(c, init, n) || (n == last.0 && c.records[last.1].LegacyRelease?)
  {
    var init := rels[..|rels| - 1];
    assert forall i :: 0 <= i < |init| ==> init[i] == rels[i];
  }

  /** Some entry of rels is called n and its record is legacy. */
  ghost predicate IsLegacyName(c: Config, rels: Items, n: string)
    requires forall i :: 0 <= i < |rels| ==> rels[i].1 in c.records
  {
    exists i :: 0 <= i < |rels| && rels[i].0 == n && c.records[rels[i].1].LegacyRelease?
  }

  /** get_releases(): the names of all releases, ascending. */
  function GetReleases(c: Config): (r: seq<string>)
    ensures Ordering.Sorted(r) && multiset(r) == multiset(Names(c.releases))
  {
    Ordering.Sort(Names(c.releases))
  }

  /** get_legacy_releases(): the names of the legacy releases, ascending. */
  function GetLegacyReleases(c: Config): (r: seq<string>)
    requires c.Valid()
    ensures Ordering.Sorted(r) && multiset(r) == multiset(LegacyNames(c, c.releases))
    ensures forall n :: n in r <==> IsLegacyName(c, c.releases, n)
  {
    var r := Ordering.Sort(LegacyNames(c, c.releases));
    assert forall n :: n in r <==> n in multiset(r);
    r
  }

  /** The legacy releases are among all the releases, with no more repeats. */
  lemma LegacyAmongReleases(c: Config)
    requires c.Valid()
    ensures multiset(GetLegacyReleases(c)) <= multiset(GetReleases(c))
  {
  }

  /** latest(what). */
  function Latest(c: Config, what: string): (r: Result<string>)
    ensures r.Ok? <==> what in c.latestes
    ensures r.Ok? ==> r.value == c.latestes[what]
    ensures r.Err? ==> r.msg == what + "not found in latest"
  {
    if what !in c.latestes then Err(what + "not found in latest") else Ok(c.latestes[what])
  }
}
