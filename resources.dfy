/**
 * The reply parser inside `get_learning_resources` (utils.py): the reply is
 * cut into lines at "\n"; a line that is blank after `strip()` is skipped;
 * any other line is split on " - " and yields a resource exactly when that
 * gives two pieces, each stripped. Every other line is dropped: there is no
 * fallback entry, no JSON attempt and no check on the link.
 */
module Resources {
  import opened Wrappers
  import opened PyStr

  const Separator: string := " - "

  datatype Resource = Resource(title: string, link: string)

  /** Neither field has whitespace at its ends or holds a separator. */
  predicate Clean(r: Resource) {
    Stripped(r.title) && Stripped(r.link)
    && Find(r.title, Separator).None? && Find(r.link, Separator).None?
  }

  /** Neither field holds a line break: what a single line of the reply yields. */
  predicate SingleLine(r: Resource) {
    Find(r.title, LineBreak).None? && Find(r.link, LineBreak).None?
  }

  /** One line of the reply, as the loop body of `get_learning_resources` treats it. */
  function ParseLine(line: string): (r: Option<Resource>)
    ensures r.Some? ==> !AllSpace(line) && Stripped(r.value.title) && Stripped(r.value.link)
  {
    if Strip(line) == [] then None
    else
      var parts := Split(line, Separator);
      if |parts| == 2 then Some(Resource(Strip(parts[0]), Strip(parts[1]))) else None
  }

  /**
   * A line gives a resource exactly when " - " occurs in it once (counted
   * left to right, without overlap); the title and link are what precede and
   * follow the leftmost " - ", stripped, so they are clean. A blank line
   * gives nothing.
   */
  lemma ParseLineSpec(line: string)
    ensures AllSpace(line) ==> ParseLine(line).None?
    ensures ParseLine(line).Some? <==> Count(line, Separator) == 1
    ensures ParseLine(line).Some? ==>
      Find(line, Separator).Some? &&
      var i := Find(line, Separator).value;
      ParseLine(line).value == Resource(Strip(line[..i]), Strip(line[i + |Separator|..]))
    ensures ParseLine(line).Some? ==> Clean(ParseLine(line).value)
  {
    SeparatorLine(line);
  }

  /**
   * A line without " - " is dropped: no title-only entry and no fallback
   * link is made for it.
   */
  lemma NoSeparatorDropped(line: string)
    requires Find(line, Separator).None?
    ensures ParseLine(line).None?
  {
    CountFind(line, Separator);
    ParseLineSpec(line);
  }

  /** Either field may be empty: " - " followed by a link without " - " gives an empty title. */
  lemma EmptyTitle(link: string)
    requires Find(link, Separator).None?
    ensures ParseLine(Separator + link) == Some(Resource("", Strip(link)))
  {
    LeadingSeparator(link);
    StripFixpoint("");
  }

  /** A line made of " - " and then text without " - " is not blank and splits into "" and that text. */
  lemma LeadingSeparator(link: string)
    requires Find(link, Separator).None?
    ensures !AllSpace(Separator + link)
    ensures Split(Separator + link, Separator) == ["", link]
  {
    var line := Separator + link;
    assert OccursAt(line, Separator, 0);
    FindIs(line, Separator, 0);
    SeparatorNotBlank(line, 0);
    assert line[|Separator|..] == link;
    SplitAt(line, Separator, 0);
  }

  /** A line holding " - " is not blank, and its two sides lose no cleanliness to stripping. */
  lemma SeparatorLine(line: string)
    ensures |Split(line, Separator)| == 2 <==> Count(line, Separator) == 1
    ensures Count(line, Separator) == 1 ==>
      !AllSpace(line) && Find(line, Separator).Some? &&
      var i := Find(line, Separator).value;
      Split(line, Separator) == [line[..i], line[i + |Separator|..]] &&
      Find(Strip(line[..i]), Separator).None? && Find(Strip(line[i + |Separator|..]), Separator).None?
  {
    SplitTwo(line, Separator);
    if Count(line, Separator) == 1 {
      SeparatorNotBlank(line, Find(line, Separator).value);
      PartsFree(Split(line, Separator));
    }
  }

  /** The " - " holds a character that is not whitespace. */
  lemma SeparatorNotBlank(line: string, i: int)
    requires OccursAt(line, Separator, i)
    ensures !AllSpace(line)
  {
    OccursIndex(line, Separator, i, 1);
    assert Separator[1] == '-';
  }

  /** A line without a line break gives a resource without one. */
  lemma ParseLineSingleLine(line: string)
    requires Find(line, LineBreak).None?
    ensures ParseLine(line).Some? ==> SingleLine(ParseLine(line).value)
  {
    if ParseLine(line).Some? {
      ParseLineSpec(line);
      var i := Find(line, Separator).value;
      FreeEnds(line, LineBreak, i, i + |Separator|);
      StripFree(line[..i], LineBreak);
      StripFree(line[i + |Separator|..], LineBreak);
    }
  }

  lemma PartsFree(parts: seq<string>)
    requires |parts| == 2
    requires forall k :: 0 <= k < |parts| ==> Find(parts[k], Separator).None?
    ensures Find(Strip(parts[0]), Separator).None? && Find(Strip(parts[1]), Separator).None?
  {
    StripFree(parts[0], Separator);
    StripFree(parts[1], Separator);
  }

  /** The outcome of every line, one per line. */
  function ParseAll(lines: seq<string>): (opts: seq<Option<Resource>>)
    ensures |opts| == |lines|
    ensures forall i :: 0 <= i < |lines| ==> opts[i] == ParseLine(lines[i])
  {
    seq(|lines|, i requires 0 <= i < |lines| => ParseLine(lines[i]))
  }

  /** The resources from a list of lines, in line order; at most one per line. */
  function ParseLines(lines: seq<string>): (rs: seq<Resource>)
    ensures |rs| <= |lines|
  {
    Somes(ParseAll(lines))
  }

  /** What `get_learning_resources` builds from the reply text. */
  function ParseReply(reply: string): (rs: seq<Resource>)
    ensures |rs| <= |Split(reply, LineBreak)|
  {
    ParseLines(Split(reply, LineBreak))
  }

  /**
   * The resources keep the order of their lines: `Positions(ParseAll(lines))[k]`
   * is the line resource `k` came from. The indices increase, each names a
   * line that parses to that very resource, every line that parses is named,
   * and every resource is clean.
   */
  lemma LineOrder(lines: seq<string>)
    ensures var origin := Positions(ParseAll(lines));
      && |origin| == |ParseLines(lines)|
      && (forall k :: 0 <= k < |origin| ==>
            origin[k] < |lines| && ParseLine(lines[origin[k]]) == Some(ParseLines(lines)[k]))
      && (forall k, m :: 0 <= k < m < |origin| ==> origin[k] < origin[m])
      && (forall j :: 0 <= j < |lines| && ParseLine(lines[j]).Some? ==> j in origin)
    ensures forall k :: 0 <= k < |ParseLines(lines)| ==> Clean(ParseLines(lines)[k])
  {
    var opts := ParseAll(lines);
    PositionsSpec(opts);
    forall k | 0 <= k < |ParseLines(lines)| ensures Clean(ParseLines(lines)[k]) {
      ParseLineSpec(lines[Positions(opts)[k]]);
    }
  }

  /**
   * The loop of `get_learning_resources`: one pass over the lines, appending
   * to `resources`. Never fails; yields at most one resource per line, each
   * clean.
   */
  method ParseResources(reply: string) returns (resources: seq<Resource>)
    ensures resources == ParseReply(reply)
    ensures |resources| <= Count(reply, LineBreak) + 1
    ensures forall k :: 0 <= k < |resources| ==> Clean(resources[k]) && SingleLine(resources[k])
  {
    var lines := Split(reply, LineBreak);
    resources := [];
    for i := 0 to |lines|
      invariant resources == ParseLines(lines[..i])
    {
      var line := lines[i];
      ParseLinesStep(lines, i);
      if Strip(line) != [] {
        var parts := Split(line, Separator);
        if |parts| == 2 {
          resources := resources + [Resource(Strip(parts[0]), Strip(parts[1]))];
          assert ParseLine(line) == Some(Resource(Strip(parts[0]), Strip(parts[1])));
        } else {
          assert ParseLine(line).None?;
        }
      } else {
        assert ParseLine(line).None?;
      }
    }
    WholeSlice(lines);
    ParseReplyBounds(reply);
  }

  /** One more line adds that line's resource, if it has one. */
  lemma ParseLinesStep(lines: seq<string>, i: int)
    requires 0 <= i < |lines|
    ensures ParseLine(lines[i]).None? ==> ParseLines(lines[..i + 1]) == ParseLines(lines[..i])
    ensures ParseLine(lines[i]).Some? ==>
      ParseLines(lines[..i + 1]) == ParseLines(lines[..i]) + [ParseLine(lines[i]).value]
  {
    var opts := ParseAll(lines[..i + 1]);
    ParseAllPrefix(lines, i);
    assert opts[i] == ParseLine(lines[i]);
  }

  lemma ParseAllPrefix(lines: seq<string>, i: int)
    requires 0 <= i < |lines|
    ensures ParseAll(lines[..i + 1])[..i] == ParseAll(lines[..i])
  {
    var opts, front := ParseAll(lines[..i + 1]), ParseAll(lines[..i]);
    forall k | 0 <= k < i ensures opts[..i][k] == front[k] {
      assert lines[..i + 1][k] == lines[..i][k];
    }
  }

  /** A reply yields at most one resource per line, and only clean ones. */
  lemma ParseReplyBounds(reply: string)
    ensures |ParseReply(reply)| <= Count(reply, LineBreak) + 1
    ensures forall k :: 0 <= k < |ParseReply(reply)| ==> Clean(ParseReply(reply)[k])
    ensures forall k :: 0 <= k < |ParseReply(reply)| ==> SingleLine(ParseReply(reply)[k])
  {
    var lines := Split(reply, LineBreak);
    SplitCount(reply, LineBreak);
    LineOrder(lines);
    var origin := Positions(ParseAll(lines));
    forall k | 0 <= k < |ParseReply(reply)| ensures SingleLine(ParseReply(reply)[k]) {
      ParseLineSingleLine(lines[origin[k]]);
    }
  }

  /** Parsing the lines of a concatenation parses each part in turn. */
  lemma ParseLinesAppend(a: seq<string>, b: seq<string>)
    ensures ParseLines(a + b) == ParseLines(a) + ParseLines(b)
  {
    var all, pa, pb := ParseAll(a + b), ParseAll(a), ParseAll(b);
    forall i | 0 <= i < |all| ensures all[i] == (pa + pb)[i] {
      if i < |a| {
        assert (a + b)[i] == a[i];
      } else {
        assert (a + b)[i] == b[i - |a|];
      }
    }
    assert all == pa + pb;
    SomesAppend(pa, pb);
  }

  /** Two replies joined by a line break parse to the first's resources, then the second's. */
  lemma ParseReplyConcat(a: string, b: string)
    ensures ParseReply(a + LineBreak + b) == ParseReply(a) + ParseReply(b)
  {
    SplitCharConcat(a, '\n', b);
    ParseLinesAppend(Split(a, LineBreak), Split(b, LineBreak));
  }

  /** A reply made of lines parses line by line. */
  lemma ParseReplyOfLines(lines: seq<string>)
    requires |lines| >= 1
    requires forall k :: 0 <= k < |lines| ==> Find(lines[k], LineBreak).None?
    ensures ParseReply(Join(lines, LineBreak)) == ParseLines(lines)
  {
    SplitJoinChar(lines, '\n');
  }
}
