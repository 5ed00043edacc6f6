/** What the M3U parser promises, stated about the specification functions of
    module M3U (and so about `ParseM3UFile` and `ParseAttributes`, whose
    results are those functions). */
module M3UProperties {
  import opened Wrappers
  import opened Text
  import opened Strconv
  import opened MapFold
  import opened M3U

  // ---------------------------------------------------------------------
  // One #EXTINF: line

  /** An accepted duration holds no space. */
  lemma DecimalHasNoSpace(s: string)
    requires IsDecimal(s)
    ensures ' ' !in s
  {
  }

  /** A head with no space contributes no attribute: the first space, and so
      every token, lies in what follows it. */
  lemma AttributesAfterSpaceFree(head: string, rest: string)
    requires ' ' !in head
    ensures AttributesOf(head + rest) == AttributesOf(rest)
  {
    AttributeTextAfterSpaceFree(head, rest);
  }

  lemma AttributeTextAfterSpaceFree(head: string, rest: string)
    requires ' ' !in head
    ensures AttributeText(head + rest) == AttributeText(rest)
  {
    var line := head + rest;
    IndexOfAfter(head, rest, ' ');
    if ' ' in rest {
      var j := IndexOf(rest, ' ');
      assert line[|head| + j + 1..] == rest[j + 1..];
    }
  }

  /** When the duration text holds no space, the attributes of the line are
      those of its title. */
  lemma AttributesFromTitle(field: string, title: string)
    requires ' ' !in field
    ensures AttributesOf(ExtinfPrefix + field + "," + title) == AttributesOf(title)
  {
    var head := ExtinfPrefix + field + ",";
    assert ' ' !in head by {
      assert ' ' !in ExtinfPrefix;
    }
    AttributesAfterSpaceFree(head, title);
  }

  /** The line `#EXTINF:<field>,<title>` with no comma in `field`: the
      duration is `field` read as an integer or the line is rejected, the
      title is everything after the first comma (later commas included), and
      the attributes come from the title alone. */
  lemma ExtinfOfParts(field: string, title: string)
    requires ',' !in field
    ensures var line := ExtinfPrefix + field + "," + title;
      Classify(line) == ExtinfLine &&
      (Atoi(field).None? ==> ParseExtinf(line) == Err(InvalidDuration(line))) &&
      (Atoi(field).Some? ==>
        ParseExtinf(line) == Ok(Channel(AttributesOf(title), title, Atoi(field).value, "")))
  {
    var line := ExtinfPrefix + field + "," + title;
    assert line[..|ExtinfPrefix|] == ExtinfPrefix;
    assert line[|ExtinfPrefix|..] == field + [','] + title;
    SplitFirstUnique(field, ',', title);
    if Atoi(field).Some? {
      DecimalHasNoSpace(field);
      AttributesFromTitle(field, title);
    }
  }

  /** An `#EXTINF:` line with no comma after the prefix is rejected. */
  lemma ExtinfWithoutComma(line: string)
    requires ExtinfPrefix <= line && ',' !in line[|ExtinfPrefix|..]
    ensures Step(Start, line) == Err(InvalidExtinf(line))
    ensures forall s :: Step(s, line) == Err(InvalidExtinf(line))
  {
  }

  /** Attributes written before the comma, the usual place in M3U files,
      make the duration text hold a space, so the line is rejected. */
  lemma AttributesBeforeCommaRejected(field: string, title: string)
    requires ',' !in field && ' ' in field
    ensures var line := ExtinfPrefix + field + "," + title;
      ParseExtinf(line) == Err(InvalidDuration(line))
  {
    ExtinfOfParts(field, title);
    if Atoi(field).Some? {
      DecimalHasNoSpace(field);
    }
  }

  /** `#EXTINF:-1 group-title="News",My Channel`, with its attribute before
      the comma, is rejected for its duration. */
  lemma GroupBeforeCommaRejected()
    ensures var line := ExtinfPrefix + "-1 group-title=\"News\"" + "," + "My Channel";
      ParseExtinf(line) == Err(InvalidDuration(line))
  {
    var field := "-1 group-title=\"News\"";
    assert field[2] == ' ';
    AttributesBeforeCommaRejected(field, "My Channel");
  }

  /** `#EXTINF:-1,My Channel group-title="News"`, with its attribute after the
      comma, is accepted. */
  lemma GroupAfterCommaAccepted()
    ensures ParseExtinf(ExtinfPrefix + "-1" + "," + "My Channel group-title=\"News\"").Ok?
  {
    assert IsDecimal("-1");
    ExtinfOfParts("-1", "My Channel group-title=\"News\"");
  }

  // ---------------------------------------------------------------------
  // Attributes

  /** A key is bound exactly when some token of the line carries it. */
  lemma AttributeKeys(line: string, key: string)
    ensures var tokens := AttributeTokens(line);
      key in AttributesOf(line) <==>
        exists i :: 0 <= i < |tokens| && Binding(tokens[i]).Some? && Binding(tokens[i]).value.0 == key
  {
    FoldKeys(AttributeTokens(line), Binding, key);
  }

  /** A key is bound to the value of the last token that carries it: a later
      duplicate overwrites an earlier one. */
  lemma AttributeLastWins(line: string, i: nat)
    requires var tokens := AttributeTokens(line);
      i < |tokens| && Binding(tokens[i]).Some? &&
      forall j :: i < j < |tokens| && Binding(tokens[j]).Some? ==>
        Binding(tokens[j]).value.0 != Binding(tokens[i]).value.0
    ensures var tokens := AttributeTokens(line);
      var (key, value) := Binding(tokens[i]).value;
      key in AttributesOf(line) && AttributesOf(line)[key] == value
  {
    FoldLastWins(AttributeTokens(line), Binding, i);
  }

  /** A space-free word at the very end of a line is its last token. */
  lemma LastWordIsLastToken(s: string, word: string)
    requires ' ' !in word
    ensures var tokens := AttributeTokens(s + " " + word);
      |tokens| > 0 && tokens[|tokens| - 1] == word
  {
    var line := s + " " + word;
    var start := IndexOf(line, ' ');
    assert line[|s|] == ' ';
    assert start != -1 && start <= |s|;
    var text := line[start + 1..];
    if start == |s| {
      assert text == word;
    } else {
      var x := s[start + 1..];
      assert text == x + [' '] + word;
      SplitLastWord(x, ' ', word);
    }
    SplitLastPiece(text, ' ', word);
    assert AttributeText(line) == Some(text);
  }

  /** A `key=value` word at the very end of a line is always honoured. */
  lemma LastWordAttribute(s: string, word: string)
    requires ' ' !in word && Binding(word).Some?
    ensures var (key, value) := Binding(word).value;
      key in AttributesOf(s + " " + word) && AttributesOf(s + " " + word)[key] == value
  {
    LastWordIsLastToken(s, word);
    FoldLastElement(AttributeTokens(s + " " + word), word, Binding);
  }

  /** The word `group-title=<v>` binds `group-title` to `<v>` with its quotes
      trimmed. */
  lemma GroupWord(v: string)
    requires ' ' !in v
    ensures var word := GroupTitle + "=" + v;
      ' ' !in word && Binding(word) == Some((GroupTitle, TrimQuotes(v)))
  {
    assert ' ' !in GroupTitle && '=' !in GroupTitle && Unquoted(GroupTitle);
    BindingOf(GroupTitle, v);
    TrimQuotesUnquoted(GroupTitle);
  }

  /** A title ending in the word `group-title=<v>` gives the channel the
      group `<v>` with its quotes trimmed. */
  lemma GroupOfLastWord(field: string, name: string, v: string)
    requires ',' !in field && Atoi(field).Some? && ' ' !in v
    ensures var title := name + " " + (GroupTitle + "=" + v);
      var r := ParseExtinf(ExtinfPrefix + field + "," + title);
      r.Ok? && r.value.title == title && r.value.Group() == TrimQuotes(v)
  {
    var word := GroupTitle + "=" + v;
    GroupWord(v);
    ExtinfOfParts(field, name + " " + word);
    LastWordAttribute(name, word);
  }

  // ---------------------------------------------------------------------
  // The line loop

  /** Empty lines and `#` lines other than `#EXTINF:` change nothing: they can
      be dropped from anywhere in the input. */
  lemma SkippedLineIgnored(a: seq<string>, line: string, b: seq<string>)
    requires Classify(line) == Skipped
    ensures Parse(a + [line] + b) == Parse(a + b)
  {
    RunAppend(Start, a + [line], b);
    RunAppend(Start, a, b);
    RunAppend(Start, a, [line]);
  }

  /** The first line that fails decides the outcome, whatever follows it. */
  lemma ErrorAborts(a: seq<string>, line: string, b: seq<string>)
    requires Run(Start, a).Ok? && Step(Run(Start, a).value, line).Err?
    ensures Parse(a + [line] + b) == Err(Step(Run(Start, a).value, line).error)
  {
    RunAppend(Start, a + [line], b);
    RunAppend(Start, a, [line]);
  }

  /** An `#EXTINF:` line with no comma after the prefix fails the parse. */
  lemma ExtinfWithoutCommaFails(a: seq<string>, line: string, b: seq<string>)
    requires Run(Start, a).Ok?
    requires ExtinfPrefix <= line && ',' !in line[|ExtinfPrefix|..]
    ensures Parse(a + [line] + b) == Err(InvalidExtinf(line))
  {
    ErrorAborts(a, line, b);
  }

  /** An `#EXTINF:` line whose text before the first comma is not an integer
      fails the parse. */
  lemma InvalidDurationFails(a: seq<string>, field: string, title: string, b: seq<string>)
    requires Run(Start, a).Ok?
    requires ',' !in field && Atoi(field).None?
    ensures var line := ExtinfPrefix + field + "," + title;
      Parse(a + [line] + b) == Err(InvalidDuration(line))
  {
    ExtinfOfParts(field, title);
    ErrorAborts(a, ExtinfPrefix + field + "," + title, b);
  }

  /** A URL line with no channel pending fails the parse. */
  lemma UrlWithoutPendingFails(a: seq<string>, url: string, b: seq<string>)
    requires Run(Start, a).Ok? && Run(Start, a).value.pending.None?
    requires Classify(url) == UrlLine
    ensures Parse(a + [url] + b) == Err(UrlWithoutExtinf(url))
  {
    ErrorAborts(a, url, b);
  }

  /** Lines that are all skipped leave the state as it is. */
  lemma {:induction false} RunSkipped(s: Scan, lines: seq<string>)
    requires forall i :: 0 <= i < |lines| ==> Classify(lines[i]) == Skipped
    ensures Run(s, lines) == Ok(s)
    decreases |lines|
  {
    if lines != [] {
      var init := lines[..|lines| - 1];
      assert forall i :: 0 <= i < |init| ==> init[i] == lines[i];
      RunSkipped(s, init);
    }
  }

  /** A URL line before any `#EXTINF:` line fails the parse. */
  lemma LeadingUrlFails(skipped: seq<string>, url: string, b: seq<string>)
    requires forall i :: 0 <= i < |skipped| ==> Classify(skipped[i]) == Skipped
    requires Classify(url) == UrlLine
    ensures Parse(skipped + [url] + b) == Err(UrlWithoutExtinf(url))
  {
    RunSkipped(Start, skipped);
    UrlWithoutPendingFails(skipped, url, b);
  }

  /** A URL line completes the pending channel: it is stored under its title
      with the line, verbatim, as its URL, replacing any channel of the same
      title, and nothing is pending any more. */
  lemma UrlCompletesPending(a: seq<string>, url: string)
    requires Run(Start, a).Ok? && Run(Start, a).value.pending.Some?
    requires Classify(url) == UrlLine
    ensures var Scan(pending, channels) := Run(Start, a).value;
      var stored := pending.value.(url := url);
      Run(Start, a + [url]) == Ok(Scan(None, channels[stored.title := stored]))
  {
    RunAppend(Start, a, [url]);
  }

  /** A second `#EXTINF:` line before any URL replaces the pending channel:
      the first is never stored. */
  lemma SecondExtinfReplaces(a: seq<string>, first: string, second: string, b: seq<string>)
    requires ExtinfPrefix <= first && ParseExtinf(first).Ok?
    requires ExtinfPrefix <= second
    ensures Parse(a + [first, second] + b) == Parse(a + [second] + b)
  {
    RunAppend(Start, a + [first, second], b);
    RunAppend(Start, a + [second], b);
    RunAppend(Start, a, [first, second]);
    RunAppend(Start, a, [second]);
    if Run(Start, a).Ok? {
      ReplacePending(Run(Start, a).value, first, second);
    }
  }

  lemma ReplacePending(s: Scan, first: string, second: string)
    requires ExtinfPrefix <= first && ParseExtinf(first).Ok?
    requires ExtinfPrefix <= second
    ensures Run(s, [first, second]) == Run(s, [second])
  {
    RunAppend(s, [first], [second]);
    assert [first] + [second] == [first, second];
  }

  /** A channel still pending when the lines run out is not in the result. */
  lemma PendingAtEndDropped(a: seq<string>, line: string)
    requires ExtinfPrefix <= line && ParseExtinf(line).Ok?
    ensures Parse(a + [line]) == Parse(a)
  {
    RunAppend(Start, a, [line]);
  }

  // ---------------------------------------------------------------------
  // What every stored channel is

  /** `ch`, with its URL cleared, is what some `#EXTINF:` line of `lines`
      parses to. */
  ghost predicate FromExtinf(ch: Channel, lines: seq<string>)
  {
    exists e :: e in lines && ExtinfPrefix <= e && ParseExtinf(e) == Ok(ch.(url := ""))
  }

  /** A stored channel: keyed by its title, parsed from an `#EXTINF:` line of
      the input, with a URL line of the input as its URL. */
  ghost predicate Stored(title: string, ch: Channel, lines: seq<string>)
  {
    ch.title == title && Classify(ch.url) == UrlLine && ch.url in lines && FromExtinf(ch, lines)
  }

  ghost predicate ScanInvariant(s: Scan, lines: seq<string>)
  {
    (forall t :: t in s.channels ==> Stored(t, s.channels[t], lines)) &&
    (s.pending.Some? ==> s.pending.value.url == "" && FromExtinf(s.pending.value, lines))
  }

  lemma FromExtinfPrefix(ch: Channel, lines: seq<string>, n: nat)
    requires n <= |lines| && FromExtinf(ch, lines[..n])
    ensures FromExtinf(ch, lines)
  {
    var e :| e in lines[..n] && ExtinfPrefix <= e && ParseExtinf(e) == Ok(ch.(url := ""));
    InPrefix(lines, n, e);
  }

  /** What holds of a prefix of the lines holds of all of them. */
  lemma InvariantPrefix(s: Scan, lines: seq<string>, n: nat)
    requires n <= |lines| && ScanInvariant(s, lines[..n])
    ensures ScanInvariant(s, lines)
  {
    forall t | t in s.channels
      ensures Stored(t, s.channels[t], lines)
    {
      InPrefix(lines, n, s.channels[t].url);
      FromExtinfPrefix(s.channels[t], lines, n);
    }
    if s.pending.Some? {
      FromExtinfPrefix(s.pending.value, lines, n);
    }
  }

  /** A URL line of `lines` completing a pending channel keeps the invariant. */
  lemma StoreKeepsInvariant(s: Scan, lines: seq<string>, url: string)
    requires ScanInvariant(s, lines) && s.pending.Some?
    requires url in lines && Classify(url) == UrlLine
    ensures var stored := s.pending.value.(url := url);
      ScanInvariant(Scan(None, s.channels[stored.title := stored]), lines)
  {
    var ch := s.pending.value;
    var stored := ch.(url := url);
    var channels := s.channels[stored.title := stored];
    assert Stored(stored.title, stored, lines) by {
      assert stored.(url := "") == ch;
      var e :| e in lines && ExtinfPrefix <= e && ParseExtinf(e) == Ok(ch.(url := ""));
      assert ParseExtinf(e) == Ok(stored.(url := ""));
    }
    forall t | t in channels
      ensures Stored(t, channels[t], lines)
    {
      if t != stored.title {
        assert channels[t] == s.channels[t];
      }
    }
  }

  /** An `#EXTINF:` line of `lines` that parses keeps the invariant. */
  lemma PendKeepsInvariant(s: Scan, lines: seq<string>, line: string)
    requires ScanInvariant(s, lines)
    requires line in lines && ExtinfPrefix <= line && ParseExtinf(line).Ok?
    ensures ScanInvariant(s.(pending := Some(ParseExtinf(line).value)), lines)
  {
    var ch := ParseExtinf(line).value;
    assert ch.(url := "") == ch;
    assert FromExtinf(ch, lines);
  }

  /** The invariant holds of the first `n` lines once one more line is read. */
  lemma ScanInvariantGrows(s: Scan, lines: seq<string>, n: nat)
    requires n < |lines| && ScanInvariant(s, lines[..n])
    ensures Step(s, lines[n]).Ok? ==> ScanInvariant(Step(s, lines[n]).value, lines)
  {
    var line := lines[n];
    InvariantPrefix(s, lines, n);
    match Classify(line)
    case ExtinfLine =>
      if ParseExtinf(line).Ok? {
        PendKeepsInvariant(s, lines, line);
      }
    case Skipped =>
    case UrlLine =>
      if s.pending.Some? {
        StoreKeepsInvariant(s, lines, line);
      }
  }

  lemma {:induction false} RunInvariant(lines: seq<string>)
    requires Run(Start, lines).Ok?
    ensures ScanInvariant(Run(Start, lines).value, lines)
    decreases |lines|
  {
    if lines != [] {
      var n := |lines| - 1;
      RunInvariant(lines[..n]);
      ScanInvariantGrows(Run(Start, lines[..n]).value, lines, n);
    }
  }

  /** A successful parse has an empty source URL, and every channel in it is
      stored under its title, was read from an `#EXTINF:` line of the input
      (so its duration is a 64-bit integer), and has a URL line of the input,
      verbatim, as its URL. */
  lemma ParsedChannels(lines: seq<string>)
    requires Parse(lines).Ok?
    ensures Parse(lines).value.url == ""
    ensures forall t :: t in Parse(lines).value.channels ==>
      Stored(t, Parse(lines).value.channels[t], lines)
  {
    RunInvariant(lines);
  }

  /** What `Stored` promises about the duration and the attributes. */
  lemma StoredChannelFields(title: string, ch: Channel, lines: seq<string>)
    requires Stored(title, ch, lines)
    ensures MinInt <= ch.duration <= MaxInt
    ensures exists e :: e in lines && ExtinfPrefix <= e && ch.attributes == AttributesOf(e)
  {
    var e :| e in lines && ExtinfPrefix <= e && ParseExtinf(e) == Ok(ch.(url := ""));
    assert ch.attributes == AttributesOf(e);
  }

  // ---------------------------------------------------------------------
  // Well-formed playlists

  /** One channel as a playlist writes it: `#EXTINF:<duration>,<title>`
      followed by its URL. */
  datatype Entry = Entry(duration: string, title: string, url: string)

  predicate ValidEntry(e: Entry)
  {
    ',' !in e.duration && Atoi(e.duration).Some? && Classify(e.url) == UrlLine
  }

  function EntryLines(es: seq<Entry>): seq<string>
  {
    if es == [] then []
    else
      var e := es[|es| - 1];
      EntryLines(es[..|es| - 1]) + [ExtinfPrefix + e.duration + "," + e.title, e.url]
  }

  /** The channel an entry stands for, keyed by its title. */
  function EntryBinding(e: Entry): Option<(string, Channel)>
  {
    if ValidEntry(e) then
      Some((e.title, Channel(AttributesOf(e.title), e.title, Atoi(e.duration).value, e.url)))
    else None
  }

  /** A run over two lines is the run over the first continued over the
      second. */
  lemma RunTwo(s: Scan, a: string, b: string)
    ensures Run(s, [a, b]) == Then(Run(s, [a]), [b])
  {
    RunAppend(s, [a], [b]);
    assert [a] + [b] == [a, b];
  }

  /** An entry's two lines store its channel. */
  lemma EntryStep(m: map<string, Channel>, e: Entry)
    requires ValidEntry(e)
    ensures Run(Scan(None, m), [ExtinfPrefix + e.duration + "," + e.title, e.url]) ==
      Ok(Scan(None, m[EntryBinding(e).value.0 := EntryBinding(e).value.1]))
  {
    var line := ExtinfPrefix + e.duration + "," + e.title;
    ExtinfOfParts(e.duration, e.title);
    RunTwo(Scan(None, m), line, e.url);
    var ch := ParseExtinf(line).value;
    assert Run(Scan(None, m), [line]) == Ok(Scan(Some(ch), m)) by {
      assert [line][..0] == [];
    }
    assert Run(Scan(Some(ch), m), [e.url]) == Step(Scan(Some(ch), m), e.url) by {
      assert [e.url][..0] == [];
    }
  }

  /** A playlist of well-formed entries parses to the channels of its
      entries, later entries replacing earlier ones of the same title, with
      nothing left pending. */
  lemma {:induction false} RunEntries(es: seq<Entry>)
    requires forall i :: 0 <= i < |es| ==> ValidEntry(es[i])
    ensures Run(Start, EntryLines(es)) == Ok(Scan(None, Fold(es, EntryBinding)))
    decreases |es|
  {
    if es != [] {
      var n := |es| - 1;
      var init := es[..n];
      assert forall i :: 0 <= i < n ==> init[i] == es[i];
      RunEntries(init);
      var e := es[n];
      RunAppend(Start, EntryLines(init), [ExtinfPrefix + e.duration + "," + e.title, e.url]);
      EntryStep(Fold(init, EntryBinding), e);
    }
  }

  lemma ParseEntries(es: seq<Entry>)
    requires forall i :: 0 <= i < |es| ==> ValidEntry(es[i])
    ensures Parse(EntryLines(es)) == Ok(Source("", Fold(es, EntryBinding)))
  {
    RunEntries(es);
  }

  /** A well-formed playlist with distinct titles yields one channel per
      entry. */
  lemma DistinctTitlesCount(es: seq<Entry>)
    requires forall i :: 0 <= i < |es| ==> ValidEntry(es[i])
    requires forall i, j :: 0 <= i < j < |es| ==> es[i].title != es[j].title
    ensures Parse(EntryLines(es)).Ok?
    ensures |Parse(EntryLines(es)).value.channels| == |es|
  {
    ParseEntries(es);
    FoldSize(es, EntryBinding);
  }

  /** The titles of a well-formed playlist are exactly its channel keys. */
  lemma EntryTitles(es: seq<Entry>, title: string)
    requires forall i :: 0 <= i < |es| ==> ValidEntry(es[i])
    ensures Parse(EntryLines(es)).Ok?
    ensures title in Parse(EntryLines(es)).value.channels <==>
      exists i :: 0 <= i < |es| && es[i].title == title
  {
    ParseEntries(es);
    FoldKeys(es, EntryBinding, title);
  }

  /** Of several entries with one title, the last is the one kept: with its
      URL, its duration and the attributes from its title. */
  lemma LastEntryWins(es: seq<Entry>, i: nat)
    requires forall i :: 0 <= i < |es| ==> ValidEntry(es[i])
    requires i < |es|
    requires forall j :: i < j < |es| ==> es[j].title != es[i].title
    ensures Parse(EntryLines(es)).Ok?
    ensures es[i].title in Parse(EntryLines(es)).value.channels
    ensures var ch := Parse(EntryLines(es)).value.channels[es[i].title];
      ch.url == es[i].url && Some(ch.duration) == Atoi(es[i].duration) &&
      ch.attributes == AttributesOf(es[i].title) && ch.title == es[i].title
  {
    ParseEntries(es);
    FoldLastWins(es, EntryBinding, i);
  }
}
