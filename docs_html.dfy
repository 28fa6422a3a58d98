/**
 * The HTML fragments of generate_html() in docs/docs.rtems.org/configuration.py:
 * one catalogue placeholder block and one loadCatalogue() script line per
 * selected branch or release.
 */
module DocsHtml {
  import opened Wrappers
  import Text
  import DocsConfig

  type Entry = (string, string)

  /** The characters _tag() replaces by '_'. */
  const Specials: seq<char> := [' ', '.', ',', '(', '}', '[', ']']

  function TagChar(c: char): char {
    if c in Specials then '_' else c
  }

  /** The tag of a name: every special character replaced by '_'. */
  function Tag(name: string): (r: string)
    ensures |r| == |name| && forall i :: 0 <= i < |name| ==> r[i] == TagChar(name[i])
  {
    seq(|name|, i requires 0 <= i < |name| => TagChar(name[i]))
  }

  /** _tag(): one replace() pass per special character. */
  method TagOf(name: string) returns (tag: string)
    ensures tag == Tag(name)
  {
    tag := name;
    for k := 0 to |Specials|
      invariant |tag| == |name|
      invariant forall i :: 0 <= i < |name| ==> tag[i] == if name[i] in Specials[..k] then '_' else name[i]
    {
      tag := Text.ReplaceChar(tag, Specials[k], '_');
    }
    assert Specials[..|Specials|] == Specials;
  }

  /** A tag holds no special character, and every other character of the name stays where it was. */
  lemma TagClean(name: string)
    ensures forall i :: 0 <= i < |name| ==> Tag(name)[i] !in Specials
    ensures forall i :: 0 <= i < |name| && name[i] !in Specials ==> Tag(name)[i] == name[i]
  {
  }

  /** Tagging a tag changes nothing. */
  lemma TagIdempotent(name: string)
    ensures Tag(Tag(name)) == Tag(name)
  {
  }

  /** The kinds of fragment generate_html() knows. */
  datatype Kind = Branches | Releases | LatestRelease {
    /** The what argument that asks for this kind. */
    function Name(): string {
      match this
      case Branches => "branches"
      case Releases => "releases"
      case LatestRelease => "latest-release"
    }
  }

  function KindOf(what: string): (r: Result<Kind>)
    ensures r.Ok? <==> what in {"branches", "releases", "latest-release"}
    ensures r.Ok? ==> r.value.Name() == what
    ensures r.Err? ==> r.msg == "invalid html type: " + what
  {
    if what == "branches" then Ok(Branches)
    else if what == "releases" then Ok(Releases)
    else if what == "latest-release" then Ok(LatestRelease)
    else Err("invalid html type: " + what)
  }

  /**
   * The loadCatalogue() line both script builders format: catalogue, path and
   * tag quoted, the doxygen flag bare. Split at its quotes, it gives back the
   * three quoted arguments.
   */
  function LoadCatalogue(catalogue: string, path: string, tag: string, doxygen: string): (r: string)
    ensures '"' !in catalogue + path + tag + doxygen ==>
      Text.Split(r, '"') == CatalogueArgs(catalogue, path, tag, doxygen)
  {
    var r := "<script> loadCatalogue(\"" + catalogue + "\", \"" + path + "\", \"" + tag + "\", "
      + doxygen + ", false); </script>\n";
    if '"' !in catalogue + path + tag + doxygen then
      CatalogueJoin(catalogue, path, tag, doxygen);
      Text.SplitJoin(CatalogueArgs(catalogue, path, tag, doxygen), '"');
      r
    else r
  }

  /** The pieces between the quotes of a loadCatalogue() line. */
  function CatalogueArgs(catalogue: string, path: string, tag: string, doxygen: string): seq<string> {
    ["<script> loadCatalogue(", catalogue, ", ", path, ", ", tag, ", " + doxygen + ", false); </script>\n"]
  }

  lemma CatalogueJoin(catalogue: string, path: string, tag: string, doxygen: string)
    requires '"' !in catalogue + path + tag + doxygen
    ensures var parts := CatalogueArgs(catalogue, path, tag, doxygen);
      && (forall i :: 0 <= i < |parts| ==> '"' !in parts[i])
      && Text.Join(parts, '"') == "<script> loadCatalogue(\"" + catalogue + "\", \"" + path + "\", \""
           + tag + "\", " + doxygen + ", false); </script>\n"
  {
    var parts := CatalogueArgs(catalogue, path, tag, doxygen);
    NoQuoteLiterals();
    assert Text.Join(parts[6..], '"') == parts[6];
    Text.JoinCons(parts, 5, '"');
    Text.JoinCons(parts, 4, '"');
    Text.JoinCons(parts, 3, '"');
    Text.JoinCons(parts, 2, '"');
    Text.JoinCons(parts, 1, '"');
    Text.JoinCons(parts, 0, '"');
    assert parts[0..] == parts;
    QuotedSeven(catalogue, path, tag, doxygen);
  }

  lemma NoQuoteLiterals()
    ensures '"' !in "<script> loadCatalogue(" && '"' !in ", " && '"' !in ", false); </script>\n"
  {
  }

  /** The script line, regrouped the way Join builds it from the right. */
  lemma QuotedSeven(catalogue: string, path: string, tag: string, doxygen: string)
    ensures "<script> loadCatalogue(\"" + catalogue + "\", \"" + path + "\", \"" + tag + "\", "
              + doxygen + ", false); </script>\n"
         == ("<script> loadCatalogue(" + "\"") + ((catalogue + "\"") + ((", " + "\"") + ((path + "\"")
              + ((", " + "\"") + ((tag + "\"") + (", " + doxygen + ", false); </script>\n"))))))
  {
  }

  /** A tag holds a quote only where the name does. */
  lemma TagNoQuote(name: string)
    requires '"' !in name
    ensures '"' !in Tag(name)
  {
    assert forall i :: 0 <= i < |name| ==> Tag(name)[i] != '"';
  }

  /** _branch_script(): the catalogue of a branch lives under branches/<path>. */
  function BranchScript(b: Entry): (r: string)
    ensures |r| > 1 && r[|r| - 1] == '\n'
    ensures '"' !in b.0 + b.1 ==>
      Text.Split(r, '"') == CatalogueArgs("branches/" + b.1 + "/catalogue.xml", "branches/" + b.1, Tag(b.0), "true")
  {
    if '"' !in b.0 + b.1 then TagNoQuote(b.0); assert '"' !in "branches/" + b.1 + "/catalogue.xml" + "branches/" + b.1 + Tag(b.0) + "true";
    LoadCatalogue("branches/" + b.1 + "/catalogue.xml", "branches/" + b.1, Tag(b.0), "true")
    else LoadCatalogue("branches/" + b.1 + "/catalogue.xml", "branches/" + b.1, Tag(b.0), "true")
  }

  /**
   * _release_script(): a legacy release has its catalogue at releases/<name>.xml,
   * any other at releases/<label>/catalogue.xml; the doxygen flag comes from
   * the record of the first release of that name.
   */
  function ReleaseScript(c: DocsConfig.Config, i: int): (s: string)
    requires c.Valid() && 0 <= i < |c.releases|
    ensures |s| > 1 && s[|s| - 1] == '\n'
    ensures var (name, section) := c.releases[i];
      '"' !in name + section ==>
        var legacy := DocsConfig.IsLegacyRelease(c, name).value;
        Text.Split(s, '"') == CatalogueArgs(
          if legacy then "releases/" + name + ".xml" else "releases/" + section + "/catalogue.xml",
          if legacy then "releases" else "releases/" + section,
          Tag(name),
          if DocsConfig.IsDoxygenRelease(c, name).value then "true" else "false")
  {
    var r := c.releases[i];
    var legacy := DocsConfig.IsLegacyRelease(c, r.0).value;
    var catalogue := if legacy then "releases/" + r.0 + ".xml" else "releases/" + r.1 + "/catalogue.xml";
    var path := if legacy then "releases" else "releases/" + r.1;
    var doxygen := if DocsConfig.IsDoxygenRelease(c, r.0).value then "true" else "false";
    if '"' !in r.0 + r.1 then
      TagNoQuote(r.0);
      assert '"' !in catalogue + path + Tag(r.0) + doxygen;
      LoadCatalogue(catalogue, path, Tag(r.0), doxygen)
    else LoadCatalogue(catalogue, path, Tag(r.0), doxygen)
  }

  /** The data a kind of fragment walks over. */
  function Data(c: DocsConfig.Config, kind: Kind): seq<Entry> {
    if kind == Branches then c.branches else c.releases
  }

  /** The script line of the i-th entry of the data. */
  function Script(c: DocsConfig.Config, kind: Kind, i: int): (r: string)
    requires 0 <= i < |Data(c, kind)| && (kind != Branches ==> c.Valid())
    ensures |r| > 1 && r[|r| - 1] == '\n'
    ensures kind == Branches ==> r == BranchScript(c.branches[i])
    ensures kind != Branches ==> r == ReleaseScript(c, i)
  {
    if kind == Branches then BranchScript(c.branches[i]) else ReleaseScript(c, i)
  }

  /** The three lines of the placeholder for one entry. */
  function Block(hindent: string, tag: string, name: string): (r: string)
    ensures |r| > 1 && r[|r| - 1] == '\n'
    ensures '\n' !in hindent + tag + name ==> Text.Split(r, '\n') == BlockLines(hindent, tag, name) + [""]
  {
    var r := hindent + "<div id=\"rtems-catalogue-" + tag + "\">\n"
      + hindent + " <b>" + name + "</b> No catalogue found.\n"
      + hindent + "</div>\n";
    if '\n' !in hindent + tag + name then
      BlockJoin(hindent, tag, name);
      Text.SplitJoin(BlockLines(hindent, tag, name) + [""], '\n');
      r
    else r
  }

  /** The three lines of a placeholder, without their line ends. */
  function BlockLines(hindent: string, tag: string, name: string): seq<string> {
    [hindent + "<div id=\"rtems-catalogue-" + tag + "\">",
     hindent + " <b>" + name + "</b> No catalogue found.",
     hindent + "</div>"]
  }

  lemma BlockJoin(hindent: string, tag: string, name: string)
    requires '\n' !in hindent + tag + name
    ensures var parts := BlockLines(hindent, tag, name) + [""];
      && (forall i :: 0 <= i < |parts| ==> '\n' !in parts[i])
      && Text.Join(parts, '\n') == hindent + "<div id=\"rtems-catalogue-" + tag + "\">\n"
           + hindent + " <b>" + name + "</b> No catalogue found.\n"
           + hindent + "</div>\n"
  {
    var parts := BlockLines(hindent, tag, name) + [""];
    NoNewlineLiterals();
    assert Text.Join(parts[3..], '\n') == "";
    Text.JoinCons(parts, 2, '\n');
    Text.JoinCons(parts, 1, '\n');
    Text.JoinCons(parts, 0, '\n');
    assert parts[0..] == parts;
    BlockRegroup(hindent, tag, name);
  }

  lemma NoNewlineLiterals()
    ensures '\n' !in "<div id=\"rtems-catalogue-" && '\n' !in "\">"
    ensures '\n' !in " <b>" && '\n' !in "</b> No catalogue found." && '\n' !in "</div>"
  {
  }

  /** The placeholder, regrouped the way Join builds it from the right. */
  lemma BlockRegroup(hindent: string, tag: string, name: string)
    ensures hindent + "<div id=\"rtems-catalogue-" + tag + "\">\n"
              + hindent + " <b>" + name + "</b> No catalogue found.\n"
              + hindent + "</div>\n"
         == (hindent + "<div id=\"rtems-catalogue-" + tag + "\">" + "\n")
              + ((hindent + " <b>" + name + "</b> No catalogue found." + "\n") + ((hindent + "</div>" + "\n") + ""))
  {
  }

  /** An entry is selected when there is no target tag or its tag is the target. */
  predicate Selects(target: Option<string>, d: Entry) {
    target.None? || Tag(d.0) == target.value
  }

  /** Whether each entry of the data is selected. */
  function Selection(data: seq<Entry>, target: Option<string>): (r: seq<bool>)
    ensures |r| == |data| && forall i :: 0 <= i < |data| ==> r[i] == Selects(target, data[i])
  {
    seq(|data|, i requires 0 <= i < |data| => Selects(target, data[i]))
  }

  /** The placeholder block of every entry, in order. */
  function Blocks(data: seq<Entry>, hindent: string): (r: seq<string>)
    ensures |r| == |data| && forall i :: 0 <= i < |data| ==> r[i] == Block(hindent, Tag(data[i].0), data[i].0)
  {
    seq(|data|, i requires 0 <= i < |data| => Block(hindent, Tag(data[i].0), data[i].0))
  }

  /** The script line of every entry, in order. */
  function Scripts(c: DocsConfig.Config, kind: Kind): (r: seq<string>)
    requires kind != Branches ==> c.Valid()
    ensures |r| == |Data(c, kind)| && forall i :: 0 <= i < |r| ==> r[i] == Script(c, kind, i)
  {
    seq(|Data(c, kind)|, i requires 0 <= i < |Data(c, kind)| => Script(c, kind, i))
  }

  /**
   * What the loop of generate_html() accumulates over the first n entries:
   * each selected piece, preceded by prefix, in order.
   */
  function Gather(pieces: seq<string>, sel: seq<bool>, prefix: string, n: int): string
    requires 0 <= n <= |pieces| == |sel|
  {
    if n == 0 then ""
    else if sel[n - 1] then Gather(pieces, sel, prefix, n - 1) + prefix + pieces[n - 1]
    else Gather(pieces, sel, prefix, n - 1)
  }

  /** Python's s[:-1]. */
  function DropLast(s: string): (r: string)
    ensures s != [] ==> r + [s[|s| - 1]] == s
    ensures s == [] ==> r == []
  {
    if s == [] then [] else s[..|s| - 1]
  }

  /** ' ' * n. */
  function Spaces(n: int): (r: string)
    ensures |r| == (if n <= 0 then 0 else n) && forall i :: 0 <= i < |r| ==> r[i] == ' '
  {
    if n <= 0 then "" else seq(n, _ => ' ')
  }

  /**
   * The target tag of a kind: none for branches and releases; for the latest
   * release the tag of the 'release' entry of [latest], which is fatal when
   * missing as soon as there is an entry to compare.
   */
  function Target(c: DocsConfig.Config, kind: Kind): (r: Result<Option<string>>)
    ensures r.Err? <==> kind == LatestRelease && c.releases != [] && "release" !in c.latestes
  {
    if kind != LatestRelease || c.releases == [] then Ok(None)
    else
      var latest :- DocsConfig.Latest(c, "release");
      Ok(Some(Tag(latest)))
  }

  /** What generate_html(what, indent) returns or the fatal error it raises. */
  function HtmlSpec(c: DocsConfig.Config, what: string, indent: int): Result<(string, string)>
    requires c.Valid()
  {
    var kind :- KindOf(what);
    Fragment(c, kind, indent)
  }

  /** The fragments of one kind: the gathered blocks and script lines, each without its last character. */
  function Fragment(c: DocsConfig.Config, kind: Kind, indent: int): Result<(string, string)>
    requires c.Valid()
  {
    var target :- Target(c, kind);
    var data := Data(c, kind);
    var sel := Selection(data, target);
    Ok((DropLast(Gather(Blocks(data, Spaces(indent)), sel, "", |data|)), DropLast(Gather(Scripts(c, kind), sel, "   ", |data|))))
  }

  /**
   * The test of one pass of the loop of generate_html(): the tag of the k-th
   * entry and whether it is shown, which for the latest release needs the
   * 'release' entry of [latest].
   */
  method Match(c: DocsConfig.Config, kind: Kind, k: int) returns (r: Result<(string, bool)>)
    requires c.Valid() && 0 <= k < |Data(c, kind)|
    ensures Target(c, kind).Err? ==> r == Err(Target(c, kind).msg)
    ensures Target(c, kind).Ok? ==>
      r == Ok((Tag(Data(c, kind)[k].0), Selects(Target(c, kind).value, Data(c, kind)[k])))
  {
    var tag := TagOf(Data(c, kind)[k].0);
    var matched := true;
    if kind == LatestRelease {
      var latest := DocsConfig.Latest(c, "release");
      if latest.Err? {
        return Err(latest.msg);
      }
      var latestTag := TagOf(latest.value);
      matched := tag == latestTag;
    }
    return Ok((tag, matched));
  }

  /** One more pass of the loop appends the next piece when it is selected. */
  lemma GatherNext(pieces: seq<string>, sel: seq<bool>, prefix: string, k: int, piece: string)
    requires 0 <= k < |pieces| == |sel| && pieces[k] == piece
    ensures sel[k] ==> Gather(pieces, sel, prefix, k + 1) == Gather(pieces, sel, prefix, k) + prefix + piece
    ensures prefix == "" && sel[k] ==> Gather(pieces, sel, prefix, k + 1) == Gather(pieces, sel, prefix, k) + piece
    ensures !sel[k] ==> Gather(pieces, sel, prefix, k + 1) == Gather(pieces, sel, prefix, k)
  {
    assert Gather(pieces, sel, prefix, k) + "" == Gather(pieces, sel, prefix, k);
  }

  /** The loop of generate_html() over the data of one kind, before the final [:-1]. */
  method Accumulate(c: DocsConfig.Config, kind: Kind, hindent: string) returns (r: Result<(string, string)>)
    requires c.Valid()
    ensures Target(c, kind).Err? ==> r == Err(Target(c, kind).msg)
    ensures Target(c, kind).Ok? ==>
      var data := Data(c, kind);
      var sel := Selection(data, Target(c, kind).value);
      r == Ok((Gather(Blocks(data, hindent), sel, "", |data|), Gather(Scripts(c, kind), sel, "   ", |data|)))
  {
    var data := Data(c, kind);
    var scripts := "";
    var html := "";
    ghost var target := Target(c, kind);
    ghost var blocks, lines := Blocks(data, hindent), Scripts(c, kind);
    ghost var sel := if target.Ok? then Selection(data, target.value) else seq(|data|, _ => false);
    for k := 0 to |data|
      invariant k > 0 ==> target.Ok?
      invariant html == Gather(blocks, sel, "", k)
      invariant scripts == Gather(lines, sel, "   ", k)
    {
      var m := Match(c, kind, k);
      if m.Err? {
        return Err(m.msg);
      }
      var (tag, matched) := m.value;
      GatherNext(blocks, sel, "", k, Block(hindent, tag, data[k].0));
      GatherNext(lines, sel, "   ", k, Script(c, kind, k));
      if matched {
        html := html + Block(hindent, tag, data[k].0);
        scripts := scripts + "   " + Script(c, kind, k);
      }
    }
    return Ok((html, scripts));
  }

  /** generate_html(what, indent). */
  method GenerateHtml(c: DocsConfig.Config, what: string, indent: int) returns (r: Result<(string, string)>)
    requires c.Valid()
    ensures r == HtmlSpec(c, what, indent)
  {
    var kind: Kind;
    if what == "branches" {
      kind := Branches;
    } else if what == "releases" {
      kind := Releases;
    } else if what == "latest-release" {
      kind := LatestRelease;
    } else {
      return Err("invalid html type: " + what);
    }
    assert KindOf(what) == Ok(kind);
    var hindent := Spaces(indent);
    var acc := Accumulate(c, kind, hindent);
    if acc.Err? {
      return Err(acc.msg);
    }
    var (html, scripts) := acc.value;
    html := DropLast(html);
    scripts := DropLast(scripts);
    return Ok((html, scripts));
  }

  // ---------------------------------------------------------------- properties

  /** generate_html() fails exactly for an unknown kind, or a latest release missing from [latest]. */
  lemma HtmlErrors(c: DocsConfig.Config, what: string, indent: int)
    requires c.Valid()
    ensures HtmlSpec(c, what, indent).Err? <==>
      what !in {"branches", "releases", "latest-release"} ||
      (what == "latest-release" && c.releases != [] && "release" !in c.latestes)
    ensures what !in {"branches", "releases", "latest-release"} ==>
      HtmlSpec(c, what, indent) == Err("invalid html type: " + what)
  {
  }

  /**
   * What the loop accumulates is empty exactly when nothing is selected, and
   * otherwise, when every piece ends in a line separator, it ends in one, so
   * the final [:-1] removes just that separator.
   */
  lemma {:induction false} GatherEnds(pieces: seq<string>, sel: seq<bool>, prefix: string, n: int)
    requires 0 <= n <= |pieces| == |sel|
    requires forall i :: 0 <= i < |pieces| ==> |pieces[i]| > 1 && pieces[i][|pieces[i]| - 1] == '\n'
    ensures var g := Gather(pieces, sel, prefix, n);
      && (g == [] <==> forall i :: 0 <= i < n ==> !sel[i])
      && (g != [] ==> |g| > 1 && g[|g| - 1] == '\n')
  {
    if n > 0 {
      GatherEnds(pieces, sel, prefix, n - 1);
      if sel[n - 1] {
        var g := Gather(pieces, sel, prefix, n);
        assert g == Gather(pieces, sel, prefix, n - 1) + prefix + pieces[n - 1];
        assert g[|g| - 1] == pieces[n - 1][|pieces[n - 1]| - 1];
      }
    }
  }

  lemma BlocksEnd(data: seq<Entry>, hindent: string)
    ensures var b := Blocks(data, hindent);
      forall i :: 0 <= i < |b| ==> |b[i]| > 1 && b[i][|b[i]| - 1] == '\n'
  {
  }

  lemma ScriptsEnd(c: DocsConfig.Config, kind: Kind)
    requires kind != Branches ==> c.Valid()
    ensures var s := Scripts(c, kind);
      forall i :: 0 <= i < |s| ==> |s[i]| > 1 && s[i][|s[i]| - 1] == '\n'
  {
  }

  /** Gathered line-terminated pieces lose exactly their final line separator to [:-1]. */
  lemma GatherDrop(pieces: seq<string>, sel: seq<bool>, prefix: string)
    requires |pieces| == |sel|
    requires forall i :: 0 <= i < |pieces| ==> |pieces[i]| > 1 && pieces[i][|pieces[i]| - 1] == '\n'
    ensures var g := Gather(pieces, sel, prefix, |pieces|);
      && (g == [] <==> forall i :: 0 <= i < |sel| ==> !sel[i])
      && (g == [] ==> DropLast(g) == [])
      && (g != [] ==> DropLast(g) != [] && DropLast(g) + "\n" == g)
  {
    GatherEnds(pieces, sel, prefix, |pieces|);
  }

  /** generate_html() asked for a known kind produces the fragments of that kind. */
  lemma HtmlKind(c: DocsConfig.Config, kind: Kind, indent: int)
    requires c.Valid()
    ensures HtmlSpec(c, kind.Name(), indent) == Fragment(c, kind, indent)
  {
    assert KindOf(kind.Name()) == Ok(kind);
  }

  /**
   * The fragments of a kind whose target is found: the gathered blocks and
   * script lines with their final line separator removed, both empty exactly
   * when no entry is selected.
   */
  lemma FragmentShape(c: DocsConfig.Config, kind: Kind, indent: int)
    requires c.Valid() && Target(c, kind).Ok?
    ensures var data := Data(c, kind);
      var sel := Selection(data, Target(c, kind).value);
      var html := Gather(Blocks(data, Spaces(indent)), sel, "", |data|);
      var scripts := Gather(Scripts(c, kind), sel, "   ", |data|);
      && Fragment(c, kind, indent) == Ok((DropLast(html), DropLast(scripts)))
      && (html == [] <==> forall i :: 0 <= i < |data| ==> !sel[i])
      && (scripts == [] <==> forall i :: 0 <= i < |data| ==> !sel[i])
      && (html == [] ==> DropLast(html) == []) && (scripts == [] ==> DropLast(scripts) == [])
      && (html != [] ==> DropLast(html) != [] && DropLast(html) + "\n" == html)
      && (scripts != [] ==> DropLast(scripts) != [] && DropLast(scripts) + "\n" == scripts)
  {
    var data := Data(c, kind);
    BlocksEnd(data, Spaces(indent));
    ScriptsEnd(c, kind);
    GatherDrop(Blocks(data, Spaces(indent)), Selection(data, Target(c, kind).value), "");
    GatherDrop(Scripts(c, kind), Selection(data, Target(c, kind).value), "   ");
  }

  /**
   * The branches and releases fragments hold a block and a script line for
   * every entry, with the trailing line separator removed.
   */
  lemma FragmentAll(c: DocsConfig.Config, kind: Kind, indent: int)
    requires c.Valid() && kind != LatestRelease
    ensures var data := Data(c, kind);
      var sel := Selection(data, None);
      var html := Gather(Blocks(data, Spaces(indent)), sel, "", |data|);
      var scripts := Gather(Scripts(c, kind), sel, "   ", |data|);
      var r := Fragment(c, kind, indent);
      && r.Ok?
      && (forall i :: 0 <= i < |data| ==> sel[i])
      && (data == [] ==> r.value == ("", ""))
      && (data != [] ==> r.value.0 + "\n" == html && r.value.1 + "\n" == scripts)
  {
    FragmentShape(c, kind, indent);
    if Data(c, kind) != [] {
      assert Selection(Data(c, kind), None)[0];
    }
  }

  /** When the latest release is one of the releases, the latest-release fragments are not empty. */
  lemma LatestReleaseShown(c: DocsConfig.Config, indent: int, i: int)
    requires c.Valid() && 0 <= i < |c.releases| && "release" in c.latestes
    requires c.latestes["release"] == c.releases[i].0
    ensures Fragment(c, LatestRelease, indent).Ok?
    ensures Fragment(c, LatestRelease, indent).value.0 != [] && Fragment(c, LatestRelease, indent).value.1 != []
  {
    assert Target(c, LatestRelease) == Ok(Some(Tag(c.releases[i].0)));
    FragmentShape(c, LatestRelease, indent);
    assert Selection(c.releases, Some(Tag(c.releases[i].0)))[i];
  }
}
