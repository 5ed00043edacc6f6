/** The M3U playlist parser: `#EXTINF:` metadata lines, each completed by the
    URL line that follows it, become channels keyed by title. */
module M3U {
  import opened Wrappers
  import opened Text
  import opened Strconv
  import opened MapFold

  const ExtinfPrefix: string := "#EXTINF:"
  const GroupTitle: string := "group-title"

  /** One playlist entry. The parser builds it from an `#EXTINF:` line with an
      empty `url` and fills the `url` in from the next URL line. */
  datatype Channel = Channel(attributes: map<string, string>, title: string, duration: int, url: string)
  {
    /** The `group-title` attribute; a missing key reads as Go's zero value,
        the empty string. */
    function Group(): (g: string)
      ensures GroupTitle in attributes ==> g == attributes[GroupTitle]
      ensures GroupTitle !in attributes ==> g == ""
    {
      if GroupTitle in attributes then attributes[GroupTitle] else ""
    }
  }

  /** The parsed playlist. The parser never assigns `url`, so it stays empty. */
  datatype Source = Source(url: string, channels: map<string, Channel>)

  /** The three ways a list of lines can be rejected, each with the offending line. */
  datatype ParseError =
    | InvalidExtinf(line: string)     // `#EXTINF:` with no comma after it
    | InvalidDuration(line: string)   // the text before the comma is not an integer
    | UrlWithoutExtinf(line: string)  // a URL line with no pending channel

  datatype Result<T> = Ok(value: T) | Err(error: ParseError)

  /** The three cases of the line loop, tested in the source's order. */
  datatype LineKind = ExtinfLine | Skipped | UrlLine

  function Classify(line: string): (k: LineKind)
    ensures k == ExtinfLine <==> ExtinfPrefix <= line
    ensures k == UrlLine <==> |line| > 0 && line[0] != '#'
    ensures k == Skipped <==> line == [] || (line[0] == '#' && !(ExtinfPrefix <= line))
  {
    if ExtinfPrefix <= line then ExtinfLine
    else if !(|line| > 0 && line[0] == '#') && |line| > 0 then UrlLine
    else Skipped
  }

  // ---------------------------------------------------------------------
  // Attributes

  /** The binding a token contributes: the text before its first `=` and the
      text after it (later `=`s included), each with every surrounding quote
      trimmed; nothing when the token has no `=`. Go's `strings.Contains(part,
      "=")` and a two-element `strings.SplitN(part, "=", 2)` coincide. */
  function Binding(token: string): (b: Option<(string, string)>)
    ensures b.None? <==> '=' !in token
    ensures b.Some? ==> Unquoted(b.value.0) && Unquoted(b.value.1)
  {
    match SplitFirst(token, '=')
    case None => None
    case Some((key, value)) => Some((TrimQuotes(key), TrimQuotes(value)))
  }

  /** Keys and values, split at the first `=`: `key=value` binds `key`
      (quotes trimmed) to `value` (quotes trimmed), whatever `value` holds. */
  lemma BindingOf(key: string, value: string)
    requires '=' !in key
    ensures Binding(key + "=" + value) == Some((TrimQuotes(key), TrimQuotes(value)))
  {
    SplitFirstUnique(key, '=', value);
  }

  /** No key and no value starts or ends with a double quote. */
  ghost predicate AllUnquoted(attrs: map<string, string>)
  {
    forall k :: k in attrs ==> Unquoted(k) && Unquoted(attrs[k])
  }

  /** The text after the first space of a metadata line, if it has one. */
  function AttributeText(line: string): Option<string>
  {
    var start := IndexOf(line, ' ');
    if start == -1 then None else Some(line[start + 1..])
  }

  /** The tokens of a metadata line: the pieces between spaces after the
      line's first space; none when the line has no space. */
  function AttributeTokens(line: string): (tokens: seq<string>)
    ensures ' ' !in line <==> tokens == []
    ensures forall i :: 0 <= i < |tokens| ==> ' ' !in tokens[i]
  {
    match AttributeText(line)
    case None => []
    case Some(text) => Split(text, ' ')
  }

  /** The attributes of a metadata line, as `parseAttributes` collects them:
      the bindings of its tokens, first to last. */
  function AttributesOf(line: string): (attrs: map<string, string>)
    ensures ' ' !in line ==> attrs == map[]
  {
    Fold(AttributeTokens(line), Binding)
  }

  /** No attribute name or value starts or ends with a double quote. */
  lemma AttributesUnquoted(line: string)
    ensures AllUnquoted(AttributesOf(line))
  {
    var tokens := AttributeTokens(line);
    var attrs := Fold(tokens, Binding);
    forall k | k in attrs
      ensures Unquoted(k) && Unquoted(attrs[k])
    {
      FoldBindingFrom(tokens, Binding, k);
    }
  }

  /** `parseAttributes`: fills the map token by token. */
  method ParseAttributes(line: string) returns (attrs: map<string, string>)
    ensures attrs == AttributesOf(line)
  {
    attrs := map[];
    var start := IndexOf(line, ' ');
    if start == -1 {
      return;
    }
    var parts := Split(line[start + 1..], ' ');
    assert AttributeText(line) == Some(line[start + 1..]);
    for i := 0 to |parts|
      invariant attrs == Fold(parts[..i], Binding)
    {
      var part := parts[i];
      FoldPrefix(parts, i, Binding);
      if '=' in part {
        var kv := SplitFirst(part, '=');
        attrs := attrs[TrimQuotes(kv.value.0) := TrimQuotes(kv.value.1)];
      }
    }
    FoldAll(parts, Binding);
  }

  // ---------------------------------------------------------------------
  // Lines

  /** An `#EXTINF:` line: the duration is everything between the prefix and
      the first comma, the title everything after that comma, and the
      attributes come from the whole line. */
  function ParseExtinf(line: string): (r: Result<Channel>)
    requires ExtinfPrefix <= line
    ensures r.Err? ==> r.error.line == line && !r.error.UrlWithoutExtinf?
    ensures r.Ok? ==> r.value.url == "" && MinInt <= r.value.duration <= MaxInt
  {
    match SplitFirst(line[|ExtinfPrefix|..], ',')
    case None => Err(InvalidExtinf(line))
    case Some((field, title)) =>
      match Atoi(field)
      case None => Err(InvalidDuration(line))
      case Some(duration) => Ok(Channel(AttributesOf(line), title, duration, ""))
  }

  /** The loop's state between two lines: the channel waiting for its URL,
      and the channels stored so far. */
  datatype Scan = Scan(pending: Option<Channel>, channels: map<string, Channel>)

  const Start: Scan := Scan(None, map[])

  /** One turn of the line loop. */
  function Step(s: Scan, line: string): (r: Result<Scan>)
    ensures r.Err? ==> r.error.line == line
    ensures Classify(line) == Skipped ==> r == Ok(s)
    ensures Classify(line) == UrlLine ==> (r.Err? <==> s.pending.None?)
    ensures r.Ok? && Classify(line) == UrlLine ==>
      r.value.pending.None? && s.pending.value.title in r.value.channels &&
      r.value.channels[s.pending.value.title].url == line
    ensures r.Ok? ==> s.channels.Keys <= r.value.channels.Keys
  {
    match Classify(line)
    case ExtinfLine =>
      (match ParseExtinf(line)
       case Err(e) => Err(e)
       case Ok(ch) => Ok(s.(pending := Some(ch))))
    case Skipped => Ok(s)
    case UrlLine =>
      match s.pending
      case None => Err(UrlWithoutExtinf(line))
      case Some(ch) =>
        var stored := ch.(url := line);
        Ok(Scan(None, s.channels[stored.title := stored]))
  }

  /** The loop over `lines` from state `s`, stopping at the first error. */
  function Run(s: Scan, lines: seq<string>): (r: Result<Scan>)
    ensures r.Err? ==> r.error.line in lines
    ensures r.Ok? ==> s.channels.Keys <= r.value.channels.Keys
    decreases |lines|
  {
    if lines == [] then Ok(s)
    else
      var n := |lines| - 1;
      match Run(s, lines[..n])
      case Err(e) =>
        InPrefix(lines, n, e.line);
        Err(e)
      case Ok(t) => Step(t, lines[n])
  }

  /** Continue a run that may already have failed. */
  function Then(r: Result<Scan>, lines: seq<string>): Result<Scan>
  {
    match r
    case Err(e) => Err(e)
    case Ok(t) => Run(t, lines)
  }

  /** A run over `a + b` is the run over `a` continued over `b`. */
  lemma {:induction false} RunAppend(s: Scan, a: seq<string>, b: seq<string>)
    ensures Run(s, a + b) == Then(Run(s, a), b)
    decreases |b|
  {
    if b == [] {
      assert a + b == a;
    } else {
      var b' := b[..|b| - 1];
      assert (a + b)[..|a + b| - 1] == a + b';
      assert (a + b)[|a + b| - 1] == b[|b| - 1];
      RunAppend(s, a, b');
    }
  }

  /** The whole parse: what `parseM3UFile` returns once its lines are read. A
      channel still pending at the end is dropped. */
  function Parse(lines: seq<string>): (r: Result<Source>)
    ensures r.Err? ==> r.error.line in lines
    ensures r.Ok? ==> r.value.url == ""
  {
    match Run(Start, lines)
    case Err(e) => Err(e)
    case Ok(s) => Ok(Source("", s.channels))
  }

  /** `parseM3UFile`, over the lines its scanner would yield. */
  method ParseM3UFile(lines: seq<string>) returns (r: Result<Source>)
    ensures r == Parse(lines)
  {
    var channels: map<string, Channel> := map[];
    var current: Option<Channel> := None;
    var i := 0;
    while i < |lines|
      invariant 0 <= i <= |lines|
      invariant Run(Start, lines[..i]) == Ok(Scan(current, channels))
    {
      var line := lines[i];
      assert lines[..i + 1][..i] == lines[..i];
      if ExtinfPrefix <= line {
        var parts := SplitFirst(line[|ExtinfPrefix|..], ',');
        if parts.None? {
          r := Err(InvalidExtinf(line));
          FailureIsFinal(lines, i + 1);
          return;
        }
        var duration := Atoi(parts.value.0);
        if duration.None? {
          r := Err(InvalidDuration(line));
          FailureIsFinal(lines, i + 1);
          return;
        }
        var title := parts.value.1;
        var attributes := ParseAttributes(line);
        current := Some(Channel(attributes, title, duration.value, ""));
      } else if !(|line| > 0 && line[0] == '#') && |line| > 0 {
        if current.None? {
          r := Err(UrlWithoutExtinf(line));
          FailureIsFinal(lines, i + 1);
          return;
        }
        var channel := current.value.(url := line);
        channels := channels[channel.title := channel];
        current := None;
      }
      i := i + 1;
    }
    assert lines[..i] == lines;
    r := Ok(Source("", channels));
  }

  /** Once the first `k` lines fail, the whole parse fails the same way. */
  lemma FailureIsFinal(lines: seq<string>, k: nat)
    requires k <= |lines| && Run(Start, lines[..k]).Err?
    ensures Parse(lines) == Err(Run(Start, lines[..k]).error)
  {
    RunAppend(Start, lines[..k], lines[k..]);
    assert lines[..k] + lines[k..] == lines;
  }
}
