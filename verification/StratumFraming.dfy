/** Splitting the bytes received from a miner into lines, and the proxy header that may come first:
    StratumClient.ProcessReceivePipeAsync and HandleProxyHeader. */
module StratumFraming {
  import opened Common

  const MAX_REQUEST: nat := 0x8000

  // ----- lines -----

  /** The position of the first end of line, or the length. */
  function PositionOf(buffer: string): (p: nat)
    ensures p <= |buffer| && '\n' !in buffer[..p] && (p < |buffer| ==> buffer[p] == '\n')
  {
    if buffer == [] || buffer[0] == '\n' then 0 else 1 + PositionOf(buffer[1..])
  }

  predicate HasLine(buffer: string) {
    PositionOf(buffer) < |buffer|
  }

  /** The complete lines of a stream, without their ends. */
  function Lines(stream: string): seq<string>
    decreases |stream|
  {
    var p := PositionOf(stream);
    if p == |stream| then [] else [stream[..p]] + Lines(stream[p + 1..])
  }

  /** What follows the last end of line. */
  function Rest(stream: string): (r: string)
    ensures '\n' !in r && |r| <= |stream|
    decreases |stream|
  {
    var p := PositionOf(stream);
    if p == |stream| then stream else Rest(stream[p + 1..])
  }

  lemma NoneBefore(buffer: string, p: nat)
    requires p <= |buffer| && '\n' !in buffer[..p]
    ensures forall k :: 0 <= k < p ==> buffer[k] != '\n'
  {
    assert forall k :: 0 <= k < p ==> buffer[k] == buffer[..p][k];
  }

  lemma PositionUnique(buffer: string, p: nat)
    requires p < |buffer| && buffer[p] == '\n' && '\n' !in buffer[..p]
    ensures PositionOf(buffer) == p
  {
    var q := PositionOf(buffer);
    NoneBefore(buffer, p);
    NoneBefore(buffer, q);
  }

  /** Cutting a stream anywhere: the lines are those of the first part, then those of its rest and the second. */
  lemma {:induction false} CutAnywhere(a: string, b: string)
    ensures Lines(a + b) == Lines(a) + Lines(Rest(a) + b)
    ensures Rest(a + b) == Rest(Rest(a) + b)
    decreases |a|
  {
    hide PositionOf, Lines, Rest;
    var p := PositionOf(a);
    if p < |a| {
      assert (a + b)[..p] == a[..p] && (a + b)[p] == a[p];
      PositionUnique(a + b, p);
      assert (a + b)[p + 1..] == a[p + 1..] + b;
      LinesFirst(a);
      LinesFirst(a + b);
      CutAnywhere(a[p + 1..], b);
    } else {
      LinesNone(a);
    }
  }

  lemma FirstLine(a: string)
    requires HasLine(a)
    ensures var p := PositionOf(a); Lines(a) == [a[..p]] + Lines(a[p + 1..])
  {
    hide PositionOf, Rest;
  }

  lemma FirstRest(a: string)
    requires HasLine(a)
    ensures Rest(a) == Rest(a[PositionOf(a) + 1..])
  {
    hide PositionOf, Lines;
  }

  /** The first line and the stream behind it. */
  lemma LinesFirst(a: string)
    requires HasLine(a)
    ensures var p := PositionOf(a); Lines(a) == [a[..p]] + Lines(a[p + 1..]) && Rest(a) == Rest(a[p + 1..])
  {
    hide PositionOf, Rest, Lines;
    FirstLine(a);
    FirstRest(a);
  }

  function Joined(chunks: seq<string>): string {
    if chunks == [] then "" else Joined(chunks[..|chunks| - 1]) + chunks[|chunks| - 1]
  }

  // ----- what happens to a line -----

  /** Address and port as text. */
  datatype Endpoint = Endpoint(address: string, port: string)

  /** The configuration and the parts that are not modelled: which requests a handler accepts (by number)
      and which header addresses parse. */
  datatype Settings = Settings(mandatory: bool, accepts: (nat, string) -> bool, parses: Endpoint -> bool)

  /** The connection: delivered requests, the header still expected, the peer, and whether it still runs. */
  datatype Session = Session(requests: seq<string>, expectingProxyHeader: bool, remote: Endpoint, failed: bool)

  predicate StartsWith(line: string, prefix: string) {
    |prefix| <= |line| && line[..|prefix|] == prefix
  }

  function SpaceAt(s: string): (p: nat)
    ensures p <= |s|
  {
    if s == [] || s[0] == ' ' then 0 else 1 + SpaceAt(s[1..])
  }

  /** string.Split(" "). */
  function Split(s: string): (parts: seq<string>)
    ensures |parts| >= 1
    decreases |s|
  {
    var p := SpaceAt(s);
    if p == |s| then [s] else [s[..p]] + Split(s[p + 1..])
  }

  /** The address and port of the original sender in a header; None when the header throws. */
  function HeaderEndpoint(line: string, parses: Endpoint -> bool): Option<Endpoint> {
    var parts := Split(line);
    if |parts| > 4 && parses(Endpoint(parts[2], parts[4])) then Some(Endpoint(parts[2], parts[4])) else None
  }

  predicate NoSpace(s: string) {
    ' ' !in s
  }

  lemma {:induction false} SpaceBehind(word: string, rest: string)
    requires NoSpace(word)
    ensures SpaceAt(word + " " + rest) == |word| && SpaceAt(word) == |word|
  {
    if word != "" {
      assert (word + " " + rest)[1..] == word[1..] + " " + rest;
      SpaceBehind(word[1..], rest);
    }
  }

  lemma SplitWord(word: string, rest: string)
    requires NoSpace(word)
    ensures Split(word + " " + rest) == [word] + Split(rest) && Split(word) == [word]
  {
    hide SpaceAt;
    SpaceBehind(word, rest);
    var s := word + " " + rest;
    assert s[..|word|] == word && s[|word| + 1..] == rest;
  }

  /** A header of six words gives the source address and the source port to the connection. */
  lemma HeaderGivesSource(protocol: string, source: string, destination: string, sourcePort: string,
                          destinationPort: string, parses: Endpoint -> bool)
    requires NoSpace(protocol) && NoSpace(source) && NoSpace(destination)
    requires NoSpace(sourcePort) && NoSpace(destinationPort)
    ensures
      var ports := sourcePort + " " + destinationPort;
      var line := "PROXY" + " " + (protocol + " " + (source + " " + (destination + " " + ports)));
      && StartsWith(line, "PROXY ")
      && HeaderEndpoint(line, parses)
           == if parses(Endpoint(source, sourcePort)) then Some(Endpoint(source, sourcePort)) else None
  {
    hide Split;
    var ports := sourcePort + " " + destinationPort;
    SplitWord("PROXY", protocol + " " + (source + " " + (destination + " " + ports)));
    SplitWord(protocol, source + " " + (destination + " " + ports));
    SplitWord(source, destination + " " + ports);
    SplitWord(destination, ports);
    SplitWord(sourcePort, destinationPort);
    SplitWord(destinationPort, "");
  }

  function Request(s: Session, line: string, settings: Settings): Session {
    if settings.accepts(|s.requests|, line) then s.(requests := s.requests + [line]) else s.(failed := true)
  }

  /** One line: the first may be a proxy header when one is expected. Nothing happens after a failure. */
  function Deliver(s: Session, line: string, settings: Settings): Session {
    if s.failed then s
    else if !s.expectingProxyHeader then Request(s, line, settings)
    else
      var t := s.(expectingProxyHeader := false);
      if StartsWith(line, "PROXY ") then
        match HeaderEndpoint(line, settings.parses)
        case None => t.(failed := true)
        case Some(e) => t.(remote := e)
      else if settings.mandatory then t.(failed := true)
      else Request(t, line, settings)
  }

  function Serve(s: Session, lines: seq<string>, settings: Settings): Session {
    if lines == [] then s else Deliver(Serve(s, lines[..|lines| - 1], settings), lines[|lines| - 1], settings)
  }

  lemma {:induction false} ServeAppend(s: Session, a: seq<string>, b: seq<string>, settings: Settings)
    ensures Serve(s, a + b, settings) == Serve(Serve(s, a, settings), b, settings)
  {
    hide Deliver;
    if b == [] {
      assert a + b == a;
    } else {
      var n := |b| - 1;
      assert (a + b)[..|a + b| - 1] == a + b[..n];
      ServeAppend(s, a, b[..n], settings);
    }
  }

  lemma {:induction false} FailureStays(s: Session, lines: seq<string>, settings: Settings)
    requires s.failed
    ensures Serve(s, lines, settings) == s
  {
    if lines != [] {
      FailureStays(s, lines[..|lines| - 1], settings);
    }
  }

  // ----- the client -----

  class Client {
    var session: Session
    var buffer: string

    constructor (expectingProxyHeader: bool, remote: Endpoint)
      ensures session == Session([], expectingProxyHeader, remote, false) && buffer == ""
    {
      session, buffer := Session([], expectingProxyHeader, remote, false), "";
    }

    /** HandleProxyHeader: whether the line was consumed; it throws by failing the session. */
    method HandleProxyHeader(line: string, settings: Settings) returns (consumed: bool)
      requires !session.failed
      modifies this`session
      ensures !session.expectingProxyHeader && session.requests == old(session.requests)
      ensures StartsWith(line, "PROXY ") ==>
        && consumed && session.failed == HeaderEndpoint(line, settings.parses).None?
        && session.remote == if session.failed then old(session.remote) else HeaderEndpoint(line, settings.parses).value
      ensures !StartsWith(line, "PROXY ") ==>
        !consumed && session.failed == settings.mandatory && session.remote == old(session.remote)
    {
      session := session.(expectingProxyHeader := false);
      if StartsWith(line, "PROXY ") {
        var endpoint := HeaderEndpoint(line, settings.parses);
        if endpoint.None? {
          session := session.(failed := true);
        } else {
          session := session.(remote := endpoint.value);
        }
        return true;
      }
      if settings.mandatory {
        session := session.(failed := true);
      }
      consumed := false;
    }

    method HandleLine(line: string, settings: Settings)
      requires !session.failed
      modifies this`session
      ensures session == Deliver(old(session), line, settings)
    {
      if session.expectingProxyHeader {
        var consumed := HandleProxyHeader(line, settings);
        if consumed || session.failed {
          return;
        }
      }
      session := Request(session, line, settings);
    }

    /** The lines in the buffer, one after the other; the rest stays. */
    method TakeLines(settings: Settings)
      requires !session.failed
      modifies this
      ensures session == Serve(old(session), Lines(old(buffer)), settings)
      ensures !session.failed ==> buffer == Rest(old(buffer))
    {
      hide Serve, Deliver, Lines, Rest, PositionOf;
      ghost var taken: seq<string> := [];
      ServeNone(session, settings);
      while HasLine(buffer)
        invariant !session.failed
        invariant taken + Lines(buffer) == Lines(old(buffer)) && Rest(buffer) == Rest(old(buffer))
        invariant session == Serve(old(session), taken, settings)
        decreases |buffer|
      {
        var p := PositionOf(buffer);
        var line := buffer[..p];
        LinesFirst(buffer);
        ServeOneMore(old(session), taken, line, settings);
        HandleLine(line, settings);
        taken := taken + [line];
        buffer := buffer[p + 1..];
        if session.failed {
          assert taken + Lines(buffer) == Lines(old(buffer));
          ServeAppend(old(session), taken, Lines(buffer), settings);
          FailureStays(session, Lines(buffer), settings);
          return;
        }
      }
      LinesNone(buffer);
      assert taken + [] == taken;
    }

    /** ProcessReceivePipeAsync over the chunks read one after the other. It ends with the chunks, when a line
        throws, or at the first read that exceeds the limit. As long as none does, the outcome is that of the
        lines of the whole stream, however it was cut. */
    method ProcessReceivePipe(chunks: seq<string>, settings: Settings) returns (count: nat, exceeded: bool)
      requires !session.failed && buffer == ""
      modifies this
      ensures count <= |chunks| && Fits(chunks, count)
      ensures session == Serve(old(session), Lines(Joined(chunks[..count])), settings)
      ensures exceeded ==> !session.failed && count < |chunks| && Exceeds(chunks, count)
      ensures !exceeded && !session.failed ==> count == |chunks|
      ensures Fits(chunks, |chunks|) ==> session == Serve(old(session), Lines(Joined(chunks)), settings)
    {
      hide Serve, Deliver, Lines, Rest, Joined, Exceeds;
      count := 0;
      BeginsEmpty(chunks, session, settings);
      while count < |chunks|
        invariant count <= |chunks| && Fits(chunks, count)
        invariant !session.failed && buffer == Rest(Joined(chunks[..count]))
        invariant session == Serve(old(session), Lines(Joined(chunks[..count])), settings)
      {
        ReadOneMore(old(session), chunks, count, settings);
        buffer := buffer + chunks[count];
        if |buffer| > MAX_REQUEST {
          ExceedsHere(chunks, count);
          return count, true;
        }
        FitsHere(chunks, count);
        TakeLines(settings);
        count := count + 1;
        if session.failed {
          FailureIsLast(old(session), chunks, count, settings);
          return count, false;
        }
      }
      assert chunks[..count] == chunks;
      exceeded := false;
    }
  }

  /** Reading one chunk more finds more than the limit in the buffer. */
  predicate Exceeds(chunks: seq<string>, k: nat)
    requires k < |chunks|
  {
    |Rest(Joined(chunks[..k]))| + |chunks[k]| > MAX_REQUEST
  }

  predicate Fits(chunks: seq<string>, n: nat)
    requires n <= |chunks|
  {
    forall k :: 0 <= k < n ==> !Exceeds(chunks, k)
  }

  lemma ExceedsHere(chunks: seq<string>, k: nat)
    requires k < |chunks| && |Rest(Joined(chunks[..k])) + chunks[k]| > MAX_REQUEST
    ensures Exceeds(chunks, k)
  {
  }

  lemma FitsHere(chunks: seq<string>, k: nat)
    requires k < |chunks| && |Rest(Joined(chunks[..k])) + chunks[k]| <= MAX_REQUEST
    ensures !Exceeds(chunks, k)
  {
  }

  lemma BeginsEmpty(chunks: seq<string>, s: Session, settings: Settings)
    ensures Rest(Joined(chunks[..0])) == "" && Serve(s, Lines(Joined(chunks[..0])), settings) == s
  {
    assert chunks[..0] == [];
    LinesNone("");
  }

  lemma LinesNone(buffer: string)
    requires !HasLine(buffer)
    ensures Lines(buffer) == [] && Rest(buffer) == buffer
  {
  }

  lemma ServeNone(s: Session, settings: Settings)
    ensures Serve(s, [], settings) == s
  {
  }

  lemma ServeOneMore(s: Session, lines: seq<string>, line: string, settings: Settings)
    ensures Serve(s, lines + [line], settings) == Deliver(Serve(s, lines, settings), line, settings)
  {
    assert (lines + [line])[..|lines + [line]| - 1] == lines;
  }

  /** The stream up to a chunk more, in terms of what is left in the buffer. */
  lemma ReadOneMore(s: Session, chunks: seq<string>, k: nat, settings: Settings)
    requires k < |chunks|
    ensures var before := Joined(chunks[..k]);
      var after := Joined(chunks[..k + 1]);
      && Rest(after) == Rest(Rest(before) + chunks[k])
      && Serve(s, Lines(after), settings)
        == Serve(Serve(s, Lines(before), settings), Lines(Rest(before) + chunks[k]), settings)
  {
    hide Serve, Lines, Rest;
    var before := Joined(chunks[..k]);
    assert chunks[..k + 1][..k] == chunks[..k];
    assert Joined(chunks[..k + 1]) == before + chunks[k];
    CutAnywhere(before, chunks[k]);
    ServeAppend(s, Lines(before), Lines(Rest(before) + chunks[k]), settings);
  }

  lemma {:induction false} FailureIsLast(s: Session, chunks: seq<string>, k: nat, settings: Settings)
    requires k <= |chunks| && Serve(s, Lines(Joined(chunks[..k])), settings).failed
    ensures Serve(s, Lines(Joined(chunks)), settings) == Serve(s, Lines(Joined(chunks[..k])), settings)
    decreases |chunks| - k
  {
    hide Serve, Lines, Rest, Joined;
    if k < |chunks| {
      var t := Serve(s, Lines(Joined(chunks[..k])), settings);
      ReadOneMore(s, chunks, k, settings);
      FailureStays(t, Lines(Rest(Joined(chunks[..k])) + chunks[k]), settings);
      FailureIsLast(s, chunks, k + 1, settings);
    } else {
      assert chunks[..k] == chunks;
    }
  }

  // ----- no byte is lost -----

  function Unlines(lines: seq<string>): string {
    if lines == [] then "" else lines[0] + "\n" + Unlines(lines[1..])
  }

  lemma UnlinesFirst(line: string, lines: seq<string>)
    ensures Unlines([line] + lines) == line + "\n" + Unlines(lines)
  {
    assert ([line] + lines)[1..] == lines;
  }

  /** The lines with their ends and the rest are the stream again, and no line holds an end of line. */
  lemma {:induction false} LinesCompose(stream: string)
    ensures Unlines(Lines(stream)) + Rest(stream) == stream
    ensures forall i :: 0 <= i < |Lines(stream)| ==> '\n' !in Lines(stream)[i]
    decreases |stream|
  {
    hide PositionOf, Rest, Lines;
    var p := PositionOf(stream);
    if p == |stream| {
      LinesNone(stream);
    } else {
      LinesFirst(stream);
      LinesCompose(stream[p + 1..]);
      UnlinesFirst(stream[..p], Lines(stream[p + 1..]));
      assert Lines(stream)[1..] == Lines(stream[p + 1..]);
      assert stream == stream[..p] + ("\n" + stream[p + 1..]);
    }
  }

  // ----- what is delivered -----

  /** Every line is delivered in order, except a proxy header that was expected and came first; a later line
      that looks like one is a request like any other. */
  lemma {:induction false} EveryLineDelivered(s: Session, lines: seq<string>, settings: Settings)
    requires !Serve(s, lines, settings).failed && !s.failed
    ensures var t := Serve(s, lines, settings);
      var header := s.expectingProxyHeader && lines != [] && StartsWith(lines[0], "PROXY ");
      && t.requests == s.requests + (if header then lines[1..] else lines)
      && t.expectingProxyHeader == (s.expectingProxyHeader && lines == [])
      && (if header then HeaderEndpoint(lines[0], settings.parses) == Some(t.remote) else t.remote == s.remote)
  {
    hide StartsWith, HeaderEndpoint;
    if lines != [] {
      var n := |lines| - 1;
      EveryLineDelivered(s, lines[..n], settings);
      assert lines == lines[..n] + [lines[n]];
      if n > 0 {
        assert lines[1..] == lines[..n][1..] + [lines[n]];
        assert lines[..n][0] == lines[0];
      }
    }
  }

  /** A mandatory header that does not come first ends the connection before anything is delivered. */
  lemma {:induction false} MandatoryHeader(s: Session, lines: seq<string>, settings: Settings)
    requires s.expectingProxyHeader && !s.failed && settings.mandatory
    requires lines != [] && !StartsWith(lines[0], "PROXY ")
    ensures var t := Serve(s, lines, settings); t.failed && t.requests == s.requests && t.remote == s.remote
  {
    hide StartsWith, HeaderEndpoint;
    var n := |lines| - 1;
    if n > 0 {
      assert lines[..n][0] == lines[0];
      MandatoryHeader(s, lines[..n], settings);
    } else {
      assert lines[..n] == [];
    }
  }
}
