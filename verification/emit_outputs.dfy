/** The step outputs the review action appends to its outputs file: three
    one-line `key=value` entries and one heredoc-style `key<<DELIMITER`
    entry for the review body, whose delimiter is lengthened until it cannot
    occur in the body.  A reader of the same two formats serves as the
    partner that every written entry is read back through. */
module EmitOutputs {
  import opened Wrappers
  import opened Strings

  /** One named output as a reader recovers it. */
  datatype Output = Output(key: string, value: string)

  /** The first line of an entry, classified the way the outputs file is
      read: `=` before any `<<` makes a one-line entry, otherwise `<<`
      opens a heredoc. */
  datatype Header = Single(key: string, value: string) | Heredoc(key: string, delimiter: string) | Malformed

  /** Output names are plain identifiers: no `=`, `<` or newline. */
  predicate PlainKey(k: string) {
    k != "" && '=' !in k && '<' !in k && '\n' !in k
  }

  const AgentOutputKey: string := "agent-output-path"
  const PayloadKey: string := "payload-path"
  const EventKey: string := "review-event"
  const BodyKey: string := "review-body"

  // ---------------------------------------------------------------------
  // Writing
  // ---------------------------------------------------------------------

  /** A one-line entry.  With a plain key and a one-line value, the reader
      takes it as exactly that entry, with nothing left over. */
  function OutputLine(key: string, value: string): (r: string)
    ensures PlainKey(key) && '\n' !in value ==> NextEntry(r) == Some((Output(key, value), ""))
  {
    var line := key + "=" + value + "\n";
    OneLineEntry(key, value, "");
    assert line + "" == line;
    line
  }

  /** The entry at the front of `key=value` plus a newline is that entry,
      followed by whatever comes after the line. */
  lemma OneLineEntry(key: string, value: string, more: string)
    ensures PlainKey(key) && '\n' !in value ==>
      NextEntry(key + "=" + value + "\n" + more) == Some((Output(key, value), more))
  {
    if PlainKey(key) && '\n' !in value {
      var line := key + "=" + value;
      assert key + "=" + value + "\n" + more == line + "\n" + more;
      forall j | 0 <= j < |line|
        ensures line[j] != '\n'
      {
        if j < |key| {
          assert line[j] == key[j];
        } else if j > |key| {
          assert line[j] == value[j - |key| - 1];
        }
      }
      SingleHeader(key, value);
      FirstLine(line, more);
    }
  }

  /** The `k`-th delimiter candidate: the base marker followed by `k`
      copies of `_X`. */
  function Marker(k: nat): string {
    if k == 0 then "EOF_REVIEW_BODY" else Marker(k - 1) + "_X"
  }

  /** Every candidate has two more characters than the one before, and none
      holds a newline, `=` or `<`, so each one fits on a header line. */
  lemma {:induction false} MarkerLength(k: nat)
    ensures |Marker(k)| == 15 + 2 * k
  {
    if k > 0 {
      MarkerLength(k - 1);
    }
  }

  lemma {:induction false} MarkerChars(k: nat)
    ensures '\n' !in Marker(k) && '=' !in Marker(k) && '<' !in Marker(k)
  {
    if k > 0 {
      MarkerChars(k - 1);
    }
  }

  /** Every candidate before the `k`-th occurs in `value`, so the search
      had to pass over each of them. */
  predicate AllOccur(value: string, k: nat) {
    k == 0 || (AllOccur(value, k - 1) && Contains(value, Marker(k - 1)))
  }

  lemma {:induction false} AllOccurMeans(value: string, k: nat)
    requires AllOccur(value, k)
    ensures forall j :: 0 <= j < k ==> Contains(value, Marker(j))
  {
    if k > 0 {
      AllOccurMeans(value, k - 1);
    }
  }

  /** The delimiter search: start from the base marker and append `_X`
      while the current marker still occurs in the value.  The result is
      the first candidate absent from the value. */
  method ChooseMarker(value: string) returns (k: nat, marker: string)
    ensures marker == Marker(k)
    ensures !Contains(value, marker)
    ensures forall j :: 0 <= j < k ==> Contains(value, Marker(j))
  {
    k := 0;
    marker := "EOF_REVIEW_BODY";
    while Contains(value, marker)
      invariant marker == Marker(k)
      invariant AllOccur(value, k)
      decreases |value| - |marker|
    {
      ContainsShorter(value, marker);
      assert Marker(k + 1) == Marker(k) + "_X";
      marker := marker + "_X";
      k := k + 1;
    }
    AllOccurMeans(value, k);
  }

  /** A heredoc entry: header, value, closing delimiter line.  When the
      delimiter does not occur in the value, the reader takes it as exactly
      that entry, newlines in the value included, with nothing left over. */
  function MultilineBlock(key: string, value: string, marker: string): (r: string)
    ensures PlainKey(key) && '\n' !in marker && '=' !in marker && !Contains(value, marker) ==>
      NextEntry(r) == Some((Output(key, value), ""))
  {
    var block := key + "<<" + marker + "\n" + value + "\n" + marker + "\n";
    HeredocEntry(key, value, marker, "");
    assert block + "" == block;
    block
  }

  /** The entry at the front of a heredoc block is that entry, followed by
      whatever comes after the closing delimiter line. */
  lemma HeredocEntry(key: string, value: string, marker: string, more: string)
    ensures PlainKey(key) && '\n' !in marker && '=' !in marker && !Contains(value, marker) ==>
      NextEntry(key + "<<" + marker + "\n" + value + "\n" + marker + "\n" + more) == Some((Output(key, value), more))
  {
    if PlainKey(key) && '\n' !in marker && '=' !in marker && !Contains(value, marker) {
      var line := key + "<<" + marker;
      var rest := value + "\n" + marker + "\n" + more;
      assert key + "<<" + marker + "\n" + value + "\n" + marker + "\n" + more == line + "\n" + rest;
      HeredocLine(key, marker);
      HeredocHeader(key, marker);
      ClosingLine(value, marker, more);
      FirstLine(line, rest);
    }
  }

  /** Missing, `null` and empty payload fields all become the empty string. */
  function FieldText(field: Option<string>): (r: string)
    ensures field.Some? ==> r == field.value
    ensures field.None? ==> r == ""
  {
    field.GetOr("")
  }

  /** The outputs written for one review: the agent output path, the
      payload path, the event on one line each, then the body as a heredoc.
      Whatever the body holds, including newlines and the base marker, the
      reader recovers all four values in this order; the one-line values
      are recovered as long as they hold no newline. */
  method EmitOutputs(agentOutputPath: string, payloadPath: string, event: Option<string>, body: Option<string>)
    returns (text: string, k: nat, marker: string)
    ensures marker == Marker(k) && !Contains(FieldText(body), marker)
    ensures forall j :: 0 <= j < k ==> Contains(FieldText(body), Marker(j))
    ensures '\n' !in marker
    ensures text == WriteLines([
        Output(AgentOutputKey, agentOutputPath),
        Output(PayloadKey, payloadPath),
        Output(EventKey, FieldText(event))])
      + MultilineBlock(BodyKey, FieldText(body), marker)
    ensures ('\n' !in agentOutputPath && '\n' !in payloadPath && '\n' !in FieldText(event)) ==>
      ReadOutputs(text) == Some([
        Output(AgentOutputKey, agentOutputPath),
        Output(PayloadKey, payloadPath),
        Output(EventKey, FieldText(event)),
        Output(BodyKey, FieldText(body))])
  {
    var bodyText := FieldText(body);
    k, marker := ChooseMarker(bodyText);
    MarkerChars(k);
    var lines := [
      Output(AgentOutputKey, agentOutputPath),
      Output(PayloadKey, payloadPath),
      Output(EventKey, FieldText(event))];
    var block := MultilineBlock(BodyKey, bodyText, marker);
    text := WriteLines(lines) + block;
    if '\n' !in agentOutputPath && '\n' !in payloadPath && '\n' !in FieldText(event) {
      KeysArePlain();
      ReadBlockAlone(BodyKey, bodyText, marker);
      ReadLines(lines, block);
      assert lines + [Output(BodyKey, bodyText)] == [lines[0], lines[1], lines[2], Output(BodyKey, bodyText)];
    }
  }

  /** One-line entries written one after another. */
  function WriteLines(outs: seq<Output>): string
    decreases |outs|
  {
    if outs == [] then "" else OutputLine(outs[0].key, outs[0].value) + WriteLines(outs[1..])
  }

  /** An entry that survives the one-line format. */
  predicate SingleLineSafe(o: Output) {
    PlainKey(o.key) && '\n' !in o.value
  }

  /** Entries in front of the entries read after them. */
  function PrependAll(outs: seq<Output>, r: Option<seq<Output>>): Option<seq<Output>> {
    match r
    case None => None
    case Some(after) => Some(outs + after)
  }

  /** Reading a run of one-line entries yields exactly those entries, in
      order, before whatever follows them. */
  lemma {:induction false} ReadLines(outs: seq<Output>, more: string)
    requires forall i :: 0 <= i < |outs| ==> SingleLineSafe(outs[i])
    ensures ReadOutputs(WriteLines(outs) + more) == PrependAll(outs, ReadOutputs(more))
    decreases |outs|
  {
    if outs == [] {
      assert WriteLines(outs) + more == more;
      PrependNothing(ReadOutputs(more));
    } else {
      var o := outs[0];
      var tail := WriteLines(outs[1..]) + more;
      ReadLines(outs[1..], more);
      WriteLinesCons(outs, more);
      ReadOutputLine(o.key, o.value, tail);
      PrependOne(outs, ReadOutputs(more));
    }
  }

  lemma WriteLinesCons(outs: seq<Output>, more: string)
    requires outs != []
    ensures WriteLines(outs) + more == OutputLine(outs[0].key, outs[0].value) + (WriteLines(outs[1..]) + more)
  {
  }

  lemma PrependNothing(r: Option<seq<Output>>)
    ensures PrependAll([], r) == r
  {
    match r
    case None =>
    case Some(after) => assert [] + after == after;
  }

  lemma PrependOne(outs: seq<Output>, r: Option<seq<Output>>)
    requires outs != []
    ensures Prepend(outs[0], PrependAll(outs[1..], r)) == PrependAll(outs, r)
  {
    match r
    case None =>
    case Some(after) => assert [outs[0]] + (outs[1..] + after) == outs + after;
  }

  lemma KeysArePlain()
    ensures PlainKey(AgentOutputKey) && PlainKey(PayloadKey)
    ensures PlainKey(EventKey) && PlainKey(BodyKey)
  {
  }

  // ---------------------------------------------------------------------
  // Reading
  // ---------------------------------------------------------------------

  /** Classifies a header line. */
  function ParseHeader(line: string): Header {
    var eq := IndexOf(line, "=");
    var here := IndexOf(line, "<<");
    IndexOfSpec(line, "=");
    IndexOfSpec(line, "<<");
    if eq.Some? && (here.None? || eq.value < here.value) then
      if eq.value == 0 then Malformed else Single(line[..eq.value], line[eq.value + 1..])
    else if here.Some? then
      if here.value == 0 then Malformed else Heredoc(line[..here.value], line[here.value + 2..])
    else Malformed
  }

  /** One entry in front of the entries read after it; a failure stays a
      failure. */
  function Prepend(o: Output, r: Option<seq<Output>>): Option<seq<Output>> {
    match r
    case None => None
    case Some(outs) => Some([o] + outs)
  }

  /** The body of a heredoc entry whose header line is already consumed:
      the lines of `rest` up to the first one equal to `delimiter`, and the
      text after that closing line.  `None` when no line closes it. */
  function CloseHeredoc(delimiter: string, rest: string): (r: Option<(string, string)>)
    ensures r.Some? ==> |r.value.1| < |rest| + 1 - |delimiter|
  {
    IndexOfSpec("\n" + rest, "\n" + delimiter + "\n");
    match IndexOf("\n" + rest, "\n" + delimiter + "\n")
    case None => None
    case Some(p) => Some((if p == 0 then "" else rest[..p - 1], rest[p + |delimiter| + 1..]))
  }

  /** The first entry of an outputs file and the text after it. */
  function NextEntry(text: string): (r: Option<(Output, string)>)
    ensures r.Some? ==> |r.value.1| < |text|
  {
    IndexOfSpec(text, "\n");
    match IndexOf(text, "\n")
    case None => None
    case Some(i) =>
      var rest := text[i + 1..];
      match ParseHeader(text[..i])
      case Malformed => None
      case Single(k, v) => Some((Output(k, v), rest))
      case Heredoc(k, d) =>
        match CloseHeredoc(d, rest)
        case None => None
        case Some(body) => Some((Output(k, body.0), body.1))
  }

  /** Reads a whole outputs file entry by entry: `None` when a line is
      malformed, a line is unterminated or a delimiter never closes. */
  function ReadOutputs(text: string): Option<seq<Output>>
    decreases |text|
  {
    if text == "" then Some([])
    else match NextEntry(text)
      case None => None
      case Some(entry) => Prepend(entry.0, ReadOutputs(entry.1))
  }

  /** The first line of `line + "\n" + more` is `line` when `line` holds no
      newline. */
  lemma FirstLine(line: string, more: string)
    requires '\n' !in line
    ensures var text := line + "\n" + more;
      IndexOf(text, "\n") == Some(|line|) && text[..|line|] == line && text[|line| + 1..] == more
  {
    var text := line + "\n" + more;
    assert text[..|line|] == line;
    assert text[|line| + 1..] == more;
    IndexOfChar(text, '\n', |line|);
  }

  /** A one-line entry's header is read back as its key and value. */
  lemma SingleHeader(key: string, value: string)
    requires PlainKey(key)
    ensures ParseHeader(key + "=" + value) == Single(key, value)
  {
    var line := key + "=" + value;
    assert line[|key|] == '=';
    assert line[..|key|] == key;
    assert line[|key| + 1..] == value;
    IndexOfChar(line, '=', |key|);
    assert "=" == ['='];
    forall j | 0 <= j < |key|
      ensures line[j] != '<'
    {
      assert line[j] == key[j];
    }
    var here := IndexOf(line, "<<");
    IndexOfSpec(line, "<<");
    if here.Some? {
      assert line[here.value] == '<';
    }
  }

  /** A heredoc header is read back as its key and delimiter. */
  lemma HeredocHeader(key: string, marker: string)
    requires PlainKey(key) && '=' !in marker
    ensures ParseHeader(key + "<<" + marker) == Heredoc(key, marker)
  {
    var line := key + "<<" + marker;
    assert line[..|key|] == key;
    assert line[|key| + 2..] == marker;
    forall j | 0 <= j < |line|
      ensures line[j] != '='
    {
      if j < |key| {
        assert line[j] == key[j];
      } else if j >= |key| + 2 {
        assert line[j] == marker[j - |key| - 2];
      }
    }
    assert '=' !in line;
    IndexOfCharAbsent(line, '=');
    assert "=" == ['='];
    forall j | 0 <= j < |key|
      ensures !("<<" <= line[j..])
    {
      assert line[j] == key[j];
    }
    assert "<<" <= line[|key|..];
    IndexOfExact(line, "<<", |key|);
  }

  /** Reading a one-line entry yields its key and value, then whatever
      follows. */
  lemma ReadOutputLine(key: string, value: string, more: string)
    requires PlainKey(key) && '\n' !in value
    ensures ReadOutputs(OutputLine(key, value) + more) == Prepend(Output(key, value), ReadOutputs(more))
  {
    assert OutputLine(key, value) + more == key + "=" + value + "\n" + more;
    OneLineEntry(key, value, more);
  }

  /** The closing delimiter line is the first line after the value equal to
      the delimiter, because the delimiter never occurs inside the value
      and holds no newline. */
  lemma ClosingLine(value: string, marker: string, more: string)
    requires '\n' !in marker && !Contains(value, marker)
    ensures CloseHeredoc(marker, value + "\n" + marker + "\n" + more) == Some((value, more))
  {
    var rest := value + "\n" + marker + "\n" + more;
    var s := "\n" + rest;
    var pat := "\n" + marker + "\n";
    var p := |value| + 1;
    assert s[p..] == pat + more;
    NoEarlierCloses(value, marker, more);
    IndexOfExact(s, pat, p);
    assert rest[..p - 1] == value;
    assert rest[p + |marker| + 1..] == more;
  }

  lemma NoEarlierCloses(value: string, marker: string, more: string)
    requires '\n' !in marker && !Contains(value, marker)
    ensures forall j :: 0 <= j < |value| + 1 ==>
      !("\n" + marker + "\n" <= ("\n" + (value + "\n" + marker + "\n" + more))[j..])
  {
    forall j | 0 <= j < |value| + 1
      ensures !("\n" + marker + "\n" <= ("\n" + (value + "\n" + marker + "\n" + more))[j..])
    {
      NoEarlierClose(value, marker, more, j);
    }
  }

  /** No line inside the value closes the heredoc early. */
  lemma NoEarlierClose(value: string, marker: string, more: string, j: nat)
    requires '\n' !in marker && !Contains(value, marker)
    requires j < |value| + 1
    ensures !("\n" + marker + "\n" <= ("\n" + (value + "\n" + marker + "\n" + more))[j..])
  {
    var s := "\n" + (value + "\n" + marker + "\n" + more);
    var pat := "\n" + marker + "\n";
    var p := |value| + 1;
    if j + |pat| <= |s| {
      var w := s[j..j + |pat|];
      assert s[j..][..|pat|] == w;
      if j + 1 + |marker| <= p {
        assert s[1..p] == value;
        NotContainsAt(value, marker, j);
        var inner := value[j..j + |marker|];
        assert forall i :: 0 <= i < |marker| ==> w[1 + i] == s[j + 1 + i] == value[j + i] == inner[i];
        assert w[1..|marker| + 1] == inner;
        assert pat[1..|marker| + 1] == marker;
      } else {
        assert s[p] == '\n';
        assert w[p - j] == '\n';
        assert pat[p - j] == marker[p - j - 1];
      }
    }
  }

  /** The header line of a heredoc entry. */
  lemma HeredocLine(key: string, marker: string)
    requires PlainKey(key) && '\n' !in marker
    ensures '\n' !in key + "<<" + marker
  {
    var line := key + "<<" + marker;
    forall j | 0 <= j < |line|
      ensures line[j] != '\n'
    {
      if j < |key| {
        assert line[j] == key[j];
      } else if j >= |key| + 2 {
        assert line[j] == marker[j - |key| - 2];
      }
    }
  }

  /** Reading a heredoc entry yields its key and the whole value, then
      whatever follows the closing delimiter. */
  lemma ReadBlock(key: string, value: string, marker: string, more: string)
    requires PlainKey(key) && '\n' !in marker && '=' !in marker
    requires !Contains(value, marker)
    ensures ReadOutputs(MultilineBlock(key, value, marker) + more) == Prepend(Output(key, value), ReadOutputs(more))
  {
    assert MultilineBlock(key, value, marker) + more == key + "<<" + marker + "\n" + value + "\n" + marker + "\n" + more;
    HeredocEntry(key, value, marker, more);
  }

  /** A heredoc entry on its own reads back as exactly that entry. */
  lemma ReadBlockAlone(key: string, value: string, marker: string)
    requires PlainKey(key) && '\n' !in marker && '=' !in marker
    requires !Contains(value, marker)
    ensures ReadOutputs(MultilineBlock(key, value, marker)) == Some([Output(key, value)])
  {
    assert MultilineBlock(key, value, marker) + "" == MultilineBlock(key, value, marker);
    ReadBlock(key, value, marker, "");
    assert [Output(key, value)] + [] == [Output(key, value)];
  }
}
