/** Session descriptions from their text: what a line says by how it is written, the lines of a text that ends
    them with carriage return and line feed, and relative controls. */
module RtspDescriptions {
  import opened Strings
  import opened RtspTrack

  lemma PrefixOf(prefix: string, rest: string)
    ensures HasPrefix(prefix + rest, prefix) && (prefix + rest)[|prefix|..] == rest
  {
  }

  /** A video section starts with "m=video ", any other section with "m=". */
  lemma SectionLines(number: string -> int, rest: string)
    ensures Classify(number, "m=video " + rest) == Video
    ensures !HasPrefix(rest, "video ") ==> Classify(number, "m=" + rest) == OtherMedia
  {
    PrefixOf("m=video ", rest);
    PrefixOf("m=", rest);
    if HasPrefix("m=" + rest, "m=video ") {
      assert ("m=" + rest)[2..8] == "m=video "[2..8] == "video ";
      assert rest[..6] == ("m=" + rest)[2..8];
    }
  }

  /** A control line gives what stands behind "a=control:". */
  lemma ControlLines(number: string -> int, control: string)
    ensures Classify(number, "a=control:" + control) == Control(TrimSpace(control))
  {
    PrefixOf("a=control:", control);
    assert ("a=control:" + control)[0] == 'a' && ("a=control:" + control)[2] == 'c';
  }

  lemma {:induction false} SpaceAfter(word: string, rest: string)
    requires ' ' !in word
    ensures FirstSpace(word + (" " + rest)) == |word|
  {
    var all := word + (" " + rest);
    assert all[|word|] == ' ';
    assert forall j | 0 <= j < |word| :: all[j] == word[j];
  }

  /** A format line gives the number before its first space, if it names H.264 at a clock of 90000 somewhere. */
  lemma FormatLines(number: string -> int, word: string, rest: string)
    requires ' ' !in word
    ensures var line := "a=rtpmap:" + (word + (" " + rest));
      Classify(number, line) == if Contains(line, "H264/90000") then Format(number(word)) else Nothing
  {
    var tail := word + (" " + rest);
    var line := "a=rtpmap:" + tail;
    PrefixOf("a=rtpmap:", tail);
    SpaceAfter(word, rest);
    assert line[0] == 'a' && line[2] == 'r';
    assert tail[..|word|] == word;
  }

  lemma VideoIsSection(line: string)
    requires !HasPrefix(line, "m=")
    ensures !HasPrefix(line, "m=video ")
  {
    assert "m=video "[..2] == "m=";
  }

  /** Any other line says nothing. */
  lemma OtherLines(number: string -> int, line: string)
    requires !HasPrefix(line, "m=") && !HasPrefix(line, "a=rtpmap:") && !HasPrefix(line, "a=control:")
    ensures Classify(number, line) == Nothing
  {
    VideoIsSection(line);
  }

  /** Each line followed by carriage return and line feed. */
  function Terminated(lines: seq<string>): string {
    if lines == [] then "" else lines[0] + "\r\n" + Terminated(lines[1..])
  }

  lemma {:induction false} TerminatedSplits(lines: seq<string>)
    requires forall i | 0 <= i < |lines| :: '\n' !in lines[i]
    ensures |Split(Terminated(lines), '\n')| == |lines| + 1
    ensures forall i | 0 <= i < |lines| :: Split(Terminated(lines), '\n')[i] == lines[i] + "\r"
    ensures Split(Terminated(lines), '\n')[|lines|] == ""
  {
    if lines != [] {
      var rest := Terminated(lines[1..]);
      TerminatedSplits(lines[1..]);
      assert Terminated(lines) == lines[0] + "\r" + (['\n'] + rest);
      assert '\n' !in lines[0] + "\r";
      SplitAtSeparator(lines[0] + "\r", rest, '\n');
      assert forall i | 0 < i < |lines| :: lines[i] == lines[1..][i - 1];
    }
  }

  lemma ReturnTrimmed(line: string)
    requires Trimmed(line)
    ensures TrimSpace(line + "\r") == line
  {
    var all := line + "\r";
    assert all[|all| - 1] == '\r' && all[..|all| - 1] == line;
    assert IsSpace('\r') && TrimRight(all) == TrimRight(line);
    if line == "" { assert all[1..] == "" && TrimLeft("") == ""; }
  }

  /** A description's lines are what stands between its line ends, whether they have carriage returns or not, and
      the empty one after the last. */
  lemma DescriptionLines(number: string -> int, lines: seq<string>)
    requires forall i | 0 <= i < |lines| :: '\n' !in lines[i] && Trimmed(lines[i])
    ensures var read := Lines(number, Terminated(lines));
      && |read| == |lines| + 1 && read[|lines|] == Nothing
      && forall i | 0 <= i < |lines| :: read[i] == Classify(number, lines[i])
    ensures lines != [] ==>
              Lines(number, Join(lines, '\n'))
              == seq(|lines|, i requires 0 <= i < |lines| => Classify(number, lines[i]))
  {
    TerminatedSplits(lines);
    forall i | 0 <= i < |lines| ensures TrimSpace(lines[i] + "\r") == lines[i] && TrimSpace(lines[i]) == lines[i] {
      ReturnTrimmed(lines[i]);
      TrimmedIsFixed(lines[i]);
    }
    OtherLines(number, "");
    if lines != [] { SplitInvertsJoin(lines, '\n'); }
  }

  /** A description whose first video section gives a format and then a control has its track there. */
  lemma FirstVideoFound(before: seq<Line>, payloadType: int, control: string, after: seq<Line>)
    requires forall i | 0 <= i < |before| :: !before[i].Video?
    requires payloadType != 0 && control != ""
    ensures var lines := before + [Video, Format(payloadType), Control(control)] + after;
      FirstSupply(lines, |before| + 2, payloadType, control)
  {
    var n, lines := |before|, before + [Video, Format(payloadType), Control(control)] + after;
    assert lines[n] == Video && lines[n + 1] == Format(payloadType) && lines[n + 2] == Control(control);
    assert forall i | 0 <= i < n :: lines[i] == before[i];
    assert SuppliedBy(lines, n + 2, payloadType, control, Marks(n, n + 1, n + 2));
    forall j, p, c, m | SuppliedBy(lines, j, p, c, m) ensures j >= n + 2 { CompleteAfter(lines, n, j, p, c, m); }
  }

  lemma CompleteAfter(lines: seq<Line>, n: nat, j: int, payloadType: int, control: string, m: Marks)
    requires n + 2 < |lines| && lines[n].Video? && lines[n + 1].Format? && forall i | 0 <= i < n :: !lines[i].Video?
    requires SuppliedBy(lines, j, payloadType, control, m)
    ensures j >= n + 2
  {
    assert m.start >= n && m.ctl != n + 1;
  }

  /** A relative control goes under the endpoint's path, whether that ends in a slash or not. */
  lemma RelativeControl(url: string, path: string, control: string)
    requires Trimmed(control) && control != "" && control[0] != '/' && !IsAbsolute(control)
    requires path == "" || path[|path| - 1] != '/'
    ensures ResolveControl(Base(url, path), control) == url + path + "/" + control
    ensures ResolveControl(Base(url, path + "/"), control) == url + path + "/" + control
  {
    TrimmedIsFixed(control);
    assert (path + "/")[|path|..] == "/" && (path + "/")[..|path|] == path;
    if path != "" { assert path[|path| - 1..] == [path[|path| - 1]]; }
  }

  /** An absolute control is taken as it is, one with a path from the root goes under the endpoint's server, and a
      blank one stands for the endpoint itself. */
  lemma OtherControls(base: Base, rest: string)
    requires Trimmed("rtsp://" + rest) && Trimmed("rtsps://" + rest) && Trimmed("/" + rest)
    ensures ResolveControl(base, "rtsp://" + rest) == "rtsp://" + rest
    ensures ResolveControl(base, "rtsps://" + rest) == "rtsps://" + rest
    ensures ResolveControl(base, "/" + rest) == base.url + ("/" + rest)
    ensures ResolveControl(base, "") == base.requestUri
  {
    TrimmedIsFixed("rtsp://" + rest);
    TrimmedIsFixed("rtsps://" + rest);
    TrimmedIsFixed("/" + rest);
    assert ("/" + rest)[0] == '/' && "rtsp://"[0] == 'r' && "rtsps://"[0] == 'r';
  }
}
