/** The report formatter (`format_message`): a banner, one line per region
    that has at least one EC2 or RDS resource, and a closing call to action. */
module Report {
  import opened Text

  /** What the scan of one region produced: the region name's entry in
      `resources_in_regions`, with its "ec2" and "rds" lists. */
  datatype RegionResources = RegionResources(region: string, ec2: seq<string>, rds: seq<string>)

  /** The two lines of the banner, each followed by a line break. The fixed
      texts are written as concatenations of short word groups: the
      verifier checks properties of short literals cheaply, and the
      concatenation spells exactly the script's text. */
  const BannerTitle: string := ":dog2: " + "Woof! Woof! " + ":dog2:"
  const BannerLead: string := " Bloodhound " + "found the " + "following " + "resources " + "in use: "
  const Banner: string := BannerTitle + "\n" + BannerLead + "\n"

  /** The closing line; the message ends with it, without a line break. */
  const Closing: string := "Please " + "stop or " + "terminate " + "all unneeded " + "resources!"

  /** A region gets a line unless both of its lists are empty. */
  predicate IsReported(r: RegionResources)
  {
    |r.ec2| != 0 || |r.rds| != 0
  }

  /** The line for one region: its upper-cased name and its two counts. */
  function RegionLine(r: RegionResources): (line: string)
  {
    "- *" + Upper(r.region) + "*: " + NatToString(|r.ec2|) + " ec2 instances, "
      + NatToString(|r.rds|) + " rds instances" + "\n"
  }

  /** The lines `line` writes for the reported regions of `rs`, in order.
      The formatter uses it with `RegionLine`; the lemmas about the layout
      hold for any line writer. */
  function Render(rs: seq<RegionResources>, line: RegionResources -> string): (text: string)
  {
    if rs == [] then ""
    else (if IsReported(rs[0]) then line(rs[0]) else "") + Render(rs[1..], line)
  }

  /** The region lines of the message. */
  function Body(rs: seq<RegionResources>): (body: string)
  {
    Render(rs, RegionLine)
  }

  /** The message `format_message` returns for the regions `rs`, in the
      dictionary's insertion order. */
  function Message(rs: seq<RegionResources>): (message: string)
  {
    Banner + Body(rs) + Closing
  }

  /** The reported regions, in input order. */
  function Reported(rs: seq<RegionResources>): (reported: seq<RegionResources>)
  {
    if rs == [] then []
    else (if IsReported(rs[0]) then [rs[0]] else []) + Reported(rs[1..])
  }

  function Concat(lines: seq<string>): (text: string)
  {
    if lines == [] then "" else lines[0] + Concat(lines[1..])
  }

  function Lines(rs: seq<RegionResources>, line: RegionResources -> string): (lines: seq<string>)
  {
    if rs == [] then [] else [line(rs[0])] + Lines(rs[1..], line)
  }

  /** `format_message`: starts from the banner, adds a line per reported
      region, skipping the others, and appends the closing line. */
  method FormatMessage(resources: seq<RegionResources>) returns (message: string)
    ensures message == Message(resources)
  {
    message := Banner;
    for k := 0 to |resources|
      invariant message == Banner + Body(resources[..k])
    {
      assert resources[..k + 1] == resources[..k] + [resources[k]];
      RenderStep(resources[..k], resources[k], RegionLine);
      var r := resources[k];
      if |r.ec2| == 0 && |r.rds| == 0 {
        continue;
      }
      AppendAssoc(Banner, Body(resources[..k]), RegionLine(r));
      message := message + RegionLine(r);
    }
    assert resources[..|resources|] == resources;
    message := message + Closing;
  }

  /** Regrouping a concatenation, stated once for symbolic sequences so that
      the callers need not re-derive it on the literal banner text. */
  lemma AppendAssoc<T>(a: seq<T>, b: seq<T>, c: seq<T>)
    ensures a + b + c == a + (b + c)
  {
  }

  /** One more region adds its line when it is reported and nothing
      otherwise. */
  lemma RenderStep(a: seq<RegionResources>, r: RegionResources, line: RegionResources -> string)
    ensures Render(a + [r], line) == Render(a, line) + (if IsReported(r) then line(r) else "")
  {
    RenderAppend(a, [r], line);
    assert Render([r], line) == (if IsReported(r) then line(r) else "") + Render([], line);
  }

  /** Every message starts with the banner and ends with the closing line. */
  lemma MessageFrame(rs: seq<RegionResources>)
    ensures |Message(rs)| >= |Banner| + |Closing|
    ensures Message(rs)[..|Banner|] == Banner
    ensures Message(rs)[|Message(rs)| - |Closing|..] == Closing
  {
  }

  lemma {:induction false} RenderAppend(a: seq<RegionResources>, b: seq<RegionResources>,
                                        line: RegionResources -> string)
    ensures Render(a + b, line) == Render(a, line) + Render(b, line)
  {
    if a == [] {
      assert a + b == b;
    } else {
      assert (a + b)[1..] == a[1..] + b;
      RenderAppend(a[1..], b, line);
    }
  }

  /** Filtering distributes over concatenation, so the reported regions keep
      their relative input order. */
  lemma {:induction false} ReportedAppend(a: seq<RegionResources>, b: seq<RegionResources>)
    ensures Reported(a + b) == Reported(a) + Reported(b)
  {
    if a == [] {
      assert a + b == b;
    } else {
      assert (a + b)[1..] == a[1..] + b;
      ReportedAppend(a[1..], b);
      AppendAssoc(if IsReported(a[0]) then [a[0]] else [], Reported(a[1..]), Reported(b));
    }
  }

  /** A region is reported exactly when it is in the input and not empty. */
  lemma {:induction false} ReportedMembership(rs: seq<RegionResources>, r: RegionResources)
    ensures r in Reported(rs) <==> r in rs && IsReported(r)
  {
    if rs != [] {
      ReportedMembership(rs[1..], r);
      assert rs == [rs[0]] + rs[1..];
    }
  }

  /** The rendered lines are exactly one line per reported region, in input
      order. */
  lemma {:induction false} RenderIsReportedLines(rs: seq<RegionResources>, line: RegionResources -> string)
    ensures Render(rs, line) == Concat(Lines(Reported(rs), line))
    ensures |Lines(Reported(rs), line)| == |Reported(rs)|
    ensures forall k :: 0 <= k < |Reported(rs)| ==> Lines(Reported(rs), line)[k] == line(Reported(rs)[k])
  {
    if rs != [] {
      RenderIsReportedLines(rs[1..], line);
      if IsReported(rs[0]) {
        assert Reported(rs) == [rs[0]] + Reported(rs[1..]);
        assert Lines(Reported(rs), line) == [line(rs[0])] + Lines(Reported(rs[1..]), line);
      } else {
        assert Reported(rs) == Reported(rs[1..]);
      }
    }
  }

  /** The region lines of the message are one `RegionLine` per reported
      region, in input order. */
  lemma BodyIsReportedLines(rs: seq<RegionResources>)
    ensures Body(rs) == Concat(Lines(Reported(rs), RegionLine))
    ensures |Lines(Reported(rs), RegionLine)| == |Reported(rs)|
    ensures forall k :: 0 <= k < |Reported(rs)| ==>
              Lines(Reported(rs), RegionLine)[k] == RegionLine(Reported(rs)[k])
  {
    RenderIsReportedLines(rs, RegionLine);
  }

  lemma {:induction false} RenderNothing(rs: seq<RegionResources>, line: RegionResources -> string)
    requires forall i :: 0 <= i < |rs| ==> !IsReported(rs[i])
    ensures Reported(rs) == []
    ensures Render(rs, line) == ""
  {
    if rs != [] {
      RenderNothing(rs[1..], line);
    }
  }

  /** With no resources anywhere the message is the banner followed directly
      by the closing line. */
  lemma AllEmptyMessage(rs: seq<RegionResources>)
    requires forall i :: 0 <= i < |rs| ==> !IsReported(rs[i])
    ensures Reported(rs) == []
    ensures Message(rs) == Banner + Closing
  {
    RenderNothing(rs, RegionLine);
    assert Banner + Body(rs) == Banner;
  }

  /** When exactly one region has resources, the rendered lines are that
      region's line alone. */
  lemma {:induction false} SingleReportedRegion(rs: seq<RegionResources>, k: nat, line: RegionResources -> string)
    requires k < |rs| && IsReported(rs[k])
    requires forall i :: 0 <= i < |rs| && i != k ==> !IsReported(rs[i])
    ensures Reported(rs) == [rs[k]]
    ensures Render(rs, line) == line(rs[k])
  {
    if k == 0 {
      RenderNothing(rs[1..], line);
      assert Render(rs, line) == line(rs[0]) + Render(rs[1..], line);
    } else {
      SingleReportedRegion(rs[1..], k - 1, line);
    }
  }

  /** The fixed texts spell exactly the script's literals. */
  lemma BannerTitleSpelling()
    ensures BannerTitle == ":dog2: Woof! Woof! :dog2:"
  {
  }

  lemma BannerLeadSpelling()
    ensures BannerLead == " Bloodhound found the following resources in use: "
  {
  }

  lemma ClosingSpelling()
    ensures Closing == "Please stop or terminate all unneeded resources!"
  {
  }

  lemma FixedTextHasNoBreak()
    ensures '\n' !in BannerTitle && '\n' !in BannerLead && '\n' !in Closing
  {
  }

  /** `s` is one line: text without a line break, then one line break. */
  predicate IsOneLine(s: string)
  {
    |s| > 0 && s[|s| - 1] == '\n' && '\n' !in s[..|s| - 1]
  }

  /** A region line is one line as long as the region name holds no line
      break. */
  lemma RegionLineIsOneLine(r: RegionResources)
    requires '\n' !in r.region
    ensures IsOneLine(RegionLine(r))
  {
    UpperKeepsNonLetters(r.region, '\n');
    var text := "- *" + Upper(r.region) + "*: " + NatToString(|r.ec2|) + " ec2 instances, "
                + NatToString(|r.rds|) + " rds instances";
    assert RegionLine(r) == text + "\n";
    assert RegionLine(r)[..|RegionLine(r)| - 1] == text;
  }

  lemma {:induction false} RenderLineBreaks(rs: seq<RegionResources>, line: RegionResources -> string)
    requires forall i :: 0 <= i < |rs| && IsReported(rs[i]) ==> IsOneLine(line(rs[i]))
    ensures Occurrences('\n', Render(rs, line)) == |Reported(rs)|
  {
    if rs != [] {
      RenderLineBreaks(rs[1..], line);
      var tail := Render(rs[1..], line);
      if IsReported(rs[0]) {
        var text := line(rs[0])[..|line(rs[0])| - 1];
        assert line(rs[0]) == text + "\n";
        assert Render(rs, line) == text + ['\n'] + tail;
        OccurrencesAfterLine('\n', text, tail);
        assert |Reported(rs)| == 1 + |Reported(rs[1..])|;
      } else {
        assert Render(rs, line) == tail;
      }
    } else {
      assert Render(rs, line) == "";
    }
  }

  /** Line breaks of a message laid out as two banner lines, a body and a
      closing text without a break. */
  lemma MessageBreaks(title: string, lead: string, body: string, closing: string)
    requires '\n' !in title && '\n' !in lead && '\n' !in closing
    ensures Occurrences('\n', title + "\n" + lead + "\n" + body + closing) == 2 + Occurrences('\n', body)
  {
    assert title + "\n" + lead + "\n" + body + closing == title + "\n" + (lead + "\n" + (body + closing));
    OccurrencesAfterLine('\n', title, lead + "\n" + (body + closing));
    OccurrencesAfterLine('\n', lead, body + closing);
    OccurrencesAppend('\n', body, closing);
    OccurrencesAbsent('\n', closing);
  }

  /** The message has one line break per reported region beyond the two of
      the banner: one line per region with at least one resource. */
  lemma MessageLineCount(rs: seq<RegionResources>)
    requires forall i :: 0 <= i < |rs| ==> '\n' !in rs[i].region
    ensures Occurrences('\n', Message(rs)) == 2 + |Reported(rs)|
  {
    forall i | 0 <= i < |rs| && IsReported(rs[i])
      ensures IsOneLine(RegionLine(rs[i]))
    {
      RegionLineIsOneLine(rs[i]);
    }
    RenderLineBreaks(rs, RegionLine);
    FixedTextHasNoBreak();
    MessageBreaks(BannerTitle, BannerLead, Body(rs), Closing);
  }
}
