/** Server-sent events: the frames the stream route writes and the splitter
    that finds them again in whatever chunks the connection delivers. */
module Sse {
  import opened Wrappers

  const SEPARATOR := "\n\n"
  const DATA := "data: "

  // --- The server ---

  /** What one wait for a new value ends with: the value's JSON line, or a
      time-out. */
  datatype Wait = Line(json: string) | TimedOut

  function Frame(w: Wait): string {
    match w
    case Line(json) => DATA + json
    case TimedOut => ": keep-alive"
  }

  function Framed(frames: seq<string>): string {
    if frames == [] then "" else frames[0] + SEPARATOR + Framed(frames[1..])
  }

  function Frames(waits: seq<Wait>): (frames: seq<string>)
    ensures |frames| == |waits|
    ensures forall i :: 0 <= i < |waits| ==> frames[i] == Frame(waits[i])
  {
    seq(|waits|, i requires 0 <= i < |waits| => Frame(waits[i]))
  }

  /** The sink of the content provider. The connection decides each time it is
      asked whether it is writable and whether a write succeeds. */
  class DataSink {
    var written: string

    constructor ()
      ensures written == ""
    {
      written := "";
    }

    method Write(bytes: string, accepts: bool) returns (ok: bool)
      modifies this
      ensures ok == accepts
      ensures written == old(written) + (if accepts then bytes else "")
    {
      ok := accepts;
      if accepts {
        written := written + bytes;
      }
    }
  }

  method ProvideContent(sink: DataSink, w: Wait, writable: bool, accepts: bool, stillWritable: bool)
    returns (more: bool)
    modifies sink
    ensures more == (writable && accepts && stillWritable)
    ensures sink.written == old(sink.written) + (if writable && accepts then Framed([Frame(w)]) else "")
    ensures writable && accepts ==>
      sink.written == old(sink.written) + (if w.Line? then "data: " + w.json + "\n\n" else ": keep-alive\n\n")
  {
    assert Framed([Frame(w)]) == Frame(w) + SEPARATOR + "";
    if w.Line? {
      var frame := DATA + w.json + SEPARATOR;
      if !writable {
        return false;
      }
      var ok := sink.Write(frame, accepts);
      if !ok {
        return false;
      }
    } else {
      if !writable {
        return false;
      }
      var ok := sink.Write(": keep-alive\n\n", accepts);
      if !ok {
        return false;
      }
    }
    return stillWritable;
  }

  // --- The separator ---

  predicate SeparatorAt(s: string, i: nat) {
    i + 1 < |s| && s[i] == '\n' && s[i + 1] == '\n'
  }

  predicate NoSeparator(s: string) {
    forall i :: 0 <= i < |s| ==> !SeparatorAt(s, i)
  }

  /** A frame that its separator ends where it was meant to end. */
  predicate SelfContained(frame: string) {
    NoSeparator(frame) && (frame != "" ==> frame[|frame| - 1] != '\n')
  }

  lemma SelfContainedMeans(frame: string)
    ensures SelfContained(frame) <==> NoSeparator(frame + "\n")
  {
    var s := frame + "\n";
    assert forall i | 0 <= i < |frame| - 1 :: SeparatorAt(frame, i) == SeparatorAt(s, i);
    assert frame != "" ==> SeparatorAt(s, |frame| - 1) == (frame[|frame| - 1] == '\n');
    assert !SeparatorAt(s, |frame|);
  }

  /** std::string::find for the separator. */
  function FindSeparator(s: string): (p: Option<nat>)
    ensures p.None? <==> NoSeparator(s)
    ensures p.Some? ==> SeparatorAt(s, p.value) && forall i :: 0 <= i < p.value ==> !SeparatorAt(s, i)
  {
    if |s| < 2 then None
    else if SeparatorAt(s, 0) then Some(0)
    else
      var p := FindSeparator(s[1..]);
      assert forall i | 0 < i < |s| :: SeparatorAt(s, i) == SeparatorAt(s[1..], i - 1);
      match p
      case None => None
      case Some(q) => assert SeparatorAt(s, q + 1); Some(q + 1)
  }

  // --- Splitting ---

  /** The frames a text completes, and what it leaves unfinished. */
  function Split(s: string): (r: (seq<string>, string))
    ensures NoSeparator(r.1)
    ensures forall i :: 0 <= i < |r.0| ==> SelfContained(r.0[i])
    decreases |s|
  {
    match FindSeparator(s)
    case None => ([], s)
    case Some(p) =>
      var (frames, tail) := Split(s[p + 2..]);
      assert SelfContained(s[..p]) by { CutIsSelfContained(s, p); }
      ([s[..p]] + frames, tail)
  }

  lemma CutIsSelfContained(s: string, p: nat)
    requires SeparatorAt(s, p) && forall i :: 0 <= i < p ==> !SeparatorAt(s, i)
    ensures SelfContained(s[..p])
  {
    assert forall i | 0 <= i < p - 1 :: SeparatorAt(s[..p], i) == SeparatorAt(s, i);
    assert p > 0 ==> !SeparatorAt(s, p - 1);
  }

  /** Nothing of the text is lost or made up. */
  lemma {:induction false} SplitLosesNothing(s: string)
    ensures Framed(Split(s).0) + Split(s).1 == s
    decreases |s|
  {
    hide NoSeparator, SelfContained, Framed;
    if FindSeparator(s).Some? {
      var p := FindSeparator(s).value;
      SeparatorSplits(s);
      SplitLosesNothing(s[p + 2..]);
      var (frames, tail) := Split(s[p + 2..]);
      FramedStep(s[..p], frames);
      Regroup(s[..p] + SEPARATOR, Framed(frames), tail);
    } else {
      NothingFramed(s);
    }
  }

  lemma SeparatorSplits(s: string)
    requires FindSeparator(s).Some?
    ensures var p := FindSeparator(s).value; p + 2 <= |s| && s == s[..p] + SEPARATOR + s[p + 2..]
  {
    hide FindSeparator, NoSeparator;
    CutAt(s, FindSeparator(s).value);
  }

  lemma CutAt(s: string, p: nat)
    requires SeparatorAt(s, p)
    ensures p + 2 <= |s| && s == s[..p] + SEPARATOR + s[p + 2..]
  {
    assert s[p..p + 2] == SEPARATOR;
    assert s == s[..p] + s[p..p + 2] + s[p + 2..];
  }

  lemma Regroup(a: string, b: string, c: string)
    ensures a + b + c == a + (b + c)
  {
  }

  lemma NothingFramed(s: string)
    ensures Framed([]) + s == s
  {
  }

  lemma FramedStep(frame: string, frames: seq<string>)
    ensures Framed([frame] + frames) == frame + SEPARATOR + Framed(frames)
  {
  }

  /** A separator already seen is still the first when more text follows. */
  lemma FirstStaysFirst(a: string, b: string)
    requires FindSeparator(a).Some?
    ensures FindSeparator(a + b) == FindSeparator(a)
  {
    var p, q := FindSeparator(a).value, FindSeparator(a + b);
    assert forall i | 0 <= i <= p :: SeparatorAt(a + b, i) == SeparatorAt(a, i);
    assert SeparatorAt(a + b, p);
    assert q.Some?;
  }

  /** Splitting what has arrived, then the rest behind the leftover, is
      splitting it all at once. */
  lemma {:induction false} SplitResumes(a: string, b: string)
    ensures Split(a + b) == (Split(a).0 + Split(Split(a).1 + b).0, Split(Split(a).1 + b).1)
    decreases |a|
  {
    hide SeparatorAt, NoSeparator, SelfContained;
    if FindSeparator(a).Some? {
      var p := FindSeparator(a).value;
      FirstStaysFirst(a, b);
      FoundInside(a);
      assert (a + b)[..p] == a[..p];
      assert (a + b)[p + 2..] == a[p + 2..] + b;
      SplitResumes(a[p + 2..], b);
      var (frames, tail) := Split(a[p + 2..]);
      assert [a[..p]] + frames + Split(tail + b).0 == [a[..p]] + (frames + Split(tail + b).0);
    } else {
      assert [] + Split(a + b).0 == Split(a + b).0;
    }
  }

  lemma FoundInside(s: string)
    requires FindSeparator(s).Some?
    ensures FindSeparator(s).value + 2 <= |s|
  {
  }

  /** The splitter finds exactly the frames that were joined, and the tail left
      over, if and only if no frame holds or ends in what would cut it short
      and the tail completes nothing. */
  lemma SplitFramedIff(frames: seq<string>, tail: string)
    ensures Split(Framed(frames) + tail) == (frames, tail)
      <==> (forall i :: 0 <= i < |frames| ==> SelfContained(frames[i])) && NoSeparator(tail)
  {
    if (forall i :: 0 <= i < |frames| ==> SelfContained(frames[i])) && NoSeparator(tail) {
      SplitFramed(frames, tail);
    }
  }

  lemma {:induction false} SplitFramed(frames: seq<string>, tail: string)
    requires (forall i :: 0 <= i < |frames| ==> SelfContained(frames[i])) && NoSeparator(tail)
    ensures Split(Framed(frames) + tail) == (frames, tail)
  {
    hide SelfContained;
    if frames == [] {
      assert Framed(frames) + tail == tail;
    } else {
      var frame, rest := frames[0], Framed(frames[1..]) + tail;
      assert Framed(frames) + tail == frame + SEPARATOR + rest;
      SplitFramed(frames[1..], tail);
      FirstSeparator(frame, rest);
      var s := frame + SEPARATOR + rest;
      assert s[..|frame|] == frame && s[|frame| + 2..] == rest;
      assert frames == [frame] + frames[1..];
      assert s == Framed(frames) + tail;
    }
  }

  lemma FirstSeparator(frame: string, rest: string)
    requires SelfContained(frame)
    ensures FindSeparator(frame + SEPARATOR + rest) == Some(|frame|)
  {
    var s := frame + SEPARATOR + rest;
    SelfContainedMeans(frame);
    assert forall i | 0 <= i < |frame| :: SeparatorAt(s, i) == SeparatorAt(frame + "\n", i);
    assert SeparatorAt(s, |frame|);
  }

  // --- The client ---

  /** The JSON texts handed to the parser: frames of data, comments dropped. */
  function Texts(frames: seq<string>): seq<string> {
    if frames == [] then []
    else (if DATA <= frames[0] then [frames[0][|DATA|..]] else []) + Texts(frames[1..])
  }

  /** The parsed values, the texts the parser throws on skipped. */
  function Parsed<J>(texts: seq<string>, parse: string -> Option<J>): seq<J> {
    if texts == [] then []
    else (if parse(texts[0]).Some? then [parse(texts[0]).value] else []) + Parsed(texts[1..], parse)
  }

  function Values<J>(frames: seq<string>, parse: string -> Option<J>): seq<J> {
    Parsed(Texts(frames), parse)
  }

  lemma {:induction false} TextsAppend(a: seq<string>, b: seq<string>)
    ensures Texts(a + b) == Texts(a) + Texts(b)
  {
    if a == [] {
      assert a + b == b;
    } else {
      assert (a + b)[1..] == a[1..] + b;
      TextsAppend(a[1..], b);
    }
  }

  lemma {:induction false} ParsedAppend<J>(a: seq<string>, b: seq<string>, parse: string -> Option<J>)
    ensures Parsed(a + b, parse) == Parsed(a, parse) + Parsed(b, parse)
  {
    if a == [] {
      assert a + b == b;
      assert [] + Parsed(b, parse) == Parsed(b, parse);
    } else {
      assert (a + b)[0] == a[0] && (a + b)[1..] == a[1..] + b;
      ParsedAppend(a[1..], b, parse);
      var first: seq<J> := if parse(a[0]).Some? then [parse(a[0]).value] else [];
      assert Parsed(a, parse) == first + Parsed(a[1..], parse);
      assert Parsed(a + b, parse) == first + Parsed(a[1..] + b, parse);
      assert first + (Parsed(a[1..], parse) + Parsed(b, parse)) == first + Parsed(a[1..], parse) + Parsed(b, parse);
    }
  }

  lemma ValuesAppend<J>(a: seq<string>, b: seq<string>, parse: string -> Option<J>)
    ensures Values(a + b, parse) == Values(a, parse) + Values(b, parse)
  {
    TextsAppend(a, b);
    ParsedAppend(Texts(a), Texts(b), parse);
  }

  /** A chunk, and the stop flag before and after it is handled. */
  datatype Arrival = Arrival(data: string, stopBefore: bool, stopAfter: bool)

  /** The chunks the receiver appends before it asks to be cut off. */
  function Taken(arrivals: seq<Arrival>): (n: nat)
    ensures n <= |arrivals|
  {
    if arrivals == [] || arrivals[0].stopBefore then 0
    else if arrivals[0].stopAfter then 1
    else 1 + Taken(arrivals[1..])
  }

  /** A chunk is taken exactly if the flag is clear before it, and was clear
      before and after every chunk ahead of it. */
  lemma {:induction false} TakenIff(arrivals: seq<Arrival>, i: nat)
    ensures i < Taken(arrivals)
       <==> (&& i < |arrivals| && !arrivals[i].stopBefore
             && forall j :: 0 <= j < i ==> !arrivals[j].stopBefore && !arrivals[j].stopAfter)
  {
    if arrivals != [] && i > 0 {
      TakenIff(arrivals[1..], i - 1);
      assert forall j | 0 < j < |arrivals| :: arrivals[1..][j - 1] == arrivals[j];
    }
  }

  /** Frame by frame, text by text, wait by wait: data frames give their text,
      texts that parse their value, lines themselves, and the rest nothing. */
  lemma OneMore<J>(frames: seq<string>, frame: string, texts: seq<string>, text: string,
                   waits: seq<Wait>, w: Wait, parse: string -> Option<J>)
    ensures Texts([]) == [] && Parsed([], parse) == [] && Lines([]) == []
    ensures Texts(frames + [frame])
         == Texts(frames) + (if |frame| >= 6 && frame[..6] == "data: " then [frame[6..]] else [])
    ensures Parsed(texts + [text], parse)
         == Parsed(texts, parse) + (if parse(text).Some? then [parse(text).value] else [])
    ensures Lines(waits + [w]) == Lines(waits) + (if w.Line? then [w.json] else [])
  {
    TextsAppend(frames, [frame]);
    assert Texts([frame]) == (if DATA <= frame then [frame[6..]] else []) + Texts([]);
    ParsedAppend(texts, [text], parse);
    assert Parsed([text], parse) == (if parse(text).Some? then [parse(text).value] else []) + Parsed([], parse);
    LinesAppend(waits, w);
  }

  lemma {:induction false} LinesAppend(waits: seq<Wait>, w: Wait)
    ensures Lines(waits + [w]) == Lines(waits) + (if w.Line? then [w.json] else [])
  {
    if waits == [] {
      assert waits + [w] == [w];
      assert Lines([w]) == (if w.Line? then [w.json] else []) + Lines([]);
    } else {
      LinesAppend(waits[1..], w);
      assert (waits + [w])[0] == waits[0] && (waits + [w])[1..] == waits[1..] + [w];
      var first: seq<string> := if waits[0].Line? then [waits[0].json] else [];
      var last: seq<string> := if w.Line? then [w.json] else [];
      assert Lines(waits) == first + Lines(waits[1..]);
      assert Lines(waits + [w]) == first + Lines(waits[1..] + [w]);
      assert first + (Lines(waits[1..]) + last) == first + Lines(waits[1..]) + last;
    }
  }

  function Received(arrivals: seq<Arrival>): string {
    if arrivals == [] then "" else arrivals[0].data + Received(arrivals[1..])
  }

  lemma {:induction false} ReceivedAppend(a: seq<Arrival>, b: Arrival)
    ensures Received(a + [b]) == Received(a) + b.data
  {
    if a == [] {
      assert Received([b]) == b.data + Received([]);
    } else {
      assert (a + [b])[1..] == a[1..] + [b];
      ReceivedAppend(a[1..], b);
    }
  }

  class Subscriber<J> {
    const parse: string -> Option<J>
    var buffer: string
    /** The values the callback has been called with. */
    var delivered: seq<J>

    constructor (parse: string -> Option<J>)
      ensures this.parse == parse && buffer == "" && delivered == []
    {
      this.parse := parse;
      buffer, delivered := "", [];
    }

    method OnChunk(a: Arrival) returns (more: bool)
      modifies this
      ensures more == (!a.stopBefore && !a.stopAfter)
      ensures a.stopBefore ==> buffer == old(buffer) && delivered == old(delivered)
      ensures !a.stopBefore ==>
        && buffer == Split(old(buffer) + a.data).1
        && delivered == old(delivered) + Values(Split(old(buffer) + a.data).0, parse)
    {
      hide SeparatorAt, NoSeparator, SelfContained, FindSeparator, Texts, Parsed, Values;
      if a.stopBefore {
        return false;
      }
      ghost var whole := old(buffer) + a.data;
      ghost var frames: seq<string> := [];
      assert delivered == old(delivered) + Values(frames, parse) by {
        NothingYet(parse);
      }
      buffer := buffer + a.data;
      var pos := FindSeparator(buffer);
      while pos.Some?
        invariant pos == FindSeparator(buffer)
        invariant frames + Split(buffer).0 == Split(whole).0 && Split(buffer).1 == Split(whole).1
        invariant delivered == old(delivered) + Values(frames, parse)
        decreases |buffer|
      {
        FoundInside(buffer);
        var frame := buffer[..pos.value];
        ghost var rest := Split(buffer[pos.value + 2..]).0;
        assert frames + ([frame] + rest) == frames + [frame] + rest;
        buffer := buffer[pos.value + 2..];
        ValuesAppend(frames, [frame], parse);
        assert Values([frame], parse)
            == if DATA <= frame && parse(frame[|DATA|..]).Some? then [parse(frame[|DATA|..]).value] else [] by {
          OneFrame(frame, parse);
        }
        frames := frames + [frame];
        if DATA <= frame {
          var value := parse(frame[|DATA|..]);
          if value.Some? {
            delivered := delivered + [value.value];
          }
        }
        pos := FindSeparator(buffer);
      }
      assert frames == Split(whole).0 && buffer == Split(whole).1;
      return !a.stopAfter;
    }

    /** Whatever the chunks: the callback sees the values of the frames the
        taken text completes, in order, and the buffer keeps its unfinished
        tail. */
    method Subscribe(arrivals: seq<Arrival>)
      requires buffer == "" && delivered == []
      modifies this
      ensures buffer == Split(Received(arrivals[..Taken(arrivals)])).1
      ensures delivered == Values(Split(Received(arrivals[..Taken(arrivals)])).0, parse)
    {
      hide FindSeparator, SeparatorAt, NoSeparator, SelfContained, Texts, Parsed, Values;
      var i := 0;
      var more := true;
      ghost var taken := 0;
      assert arrivals[0..] == arrivals && Received(arrivals[..0]) == "";
      assert Split("") == ([], "") && Values<J>([], parse) == [] by {
        NothingYet(parse);
      }
      while more && i < |arrivals|
        invariant i <= |arrivals| && taken <= |arrivals|
        invariant more ==> taken == i && Taken(arrivals) == i + Taken(arrivals[i..])
        invariant !more ==> Taken(arrivals) == taken
        invariant buffer == Split(Received(arrivals[..taken])).1
        invariant delivered == Values(Split(Received(arrivals[..taken])).0, parse)
        decreases |arrivals| - i, more
      {
        ghost var text := Received(arrivals[..i]);
        assert arrivals[i..][0] == arrivals[i] && arrivals[i..][1..] == arrivals[i + 1..];
        assert arrivals[..i + 1] == arrivals[..i] + [arrivals[i]];
        ReceivedAppend(arrivals[..i], arrivals[i]);
        SplitResumes(text, arrivals[i].data);
        ValuesAppend(Split(text).0, Split(Split(text).1 + arrivals[i].data).0, parse);
        more := OnChunk(arrivals[i]);
        if !arrivals[i].stopBefore {
          taken := i + 1;
        }
        i := i + 1;
      }
      assert more ==> arrivals[i..] == [];
    }
  }

  lemma OneFrame<J>(frame: string, parse: string -> Option<J>)
    ensures Values([frame], parse)
         == if DATA <= frame && parse(frame[|DATA|..]).Some? then [parse(frame[|DATA|..]).value] else []
  {
    assert Texts([frame]) == (if DATA <= frame then [frame[|DATA|..]] else []) + Texts([]);
    if DATA <= frame {
      var text := frame[|DATA|..];
      assert Texts([frame]) == [text];
      assert Parsed([text], parse) == (if parse(text).Some? then [parse(text).value] else []) + Parsed([], parse);
    }
  }

  lemma NothingYet<J>(parse: string -> Option<J>)
    ensures Split("") == ([], "") && Values([], parse) == []
  {
  }

  // --- From the server's waits to the client's values ---

  function Lines(waits: seq<Wait>): seq<string> {
    if waits == [] then [] else (if waits[0].Line? then [waits[0].json] else []) + Lines(waits[1..])
  }

  /** A line is carried intact exactly when it holds no separator and does not
      end in a newline. */
  lemma LineIsCarriedIff(json: string)
    ensures Split(Framed([Frame(Line(json))])) == ([DATA + json], "") <==> SelfContained(json)
  {
    var frame := DATA + json;
    SplitFramedIff([frame], "");
    assert Framed([frame]) + "" == Framed([frame]);
    assert forall i | 0 <= i < |json| :: SeparatorAt(frame, i + 6) == SeparatorAt(json, i);
    if NoSeparator(json) {
      forall i | 0 <= i < |frame|
        ensures !SeparatorAt(frame, i)
      {
        assert i >= 6 ==> !SeparatorAt(json, i - 6);
      }
    }
    assert SelfContained(frame) <==> SelfContained(json);
    assert [frame][0] == frame;
  }

  lemma NewlineFreeIsSelfContained(json: string)
    requires '\n' !in json
    ensures SelfContained(json)
  {
  }

  /** The stream, cut off anywhere: the client has parsed exactly the lines
      whose frames arrived whole, keep-alives dropped, and its buffer holds
      exactly the part of the next frame that has arrived. */
  lemma StreamIsReadBack<J>(waits: seq<Wait>, next: Wait, arrived: nat, parse: string -> Option<J>)
    requires forall i :: 0 <= i < |waits| ==> waits[i].Line? ==> SelfContained(waits[i].json)
    requires next.Line? ==> SelfContained(next.json)
    requires arrived < |Framed([Frame(next)])|
    ensures var s := Framed(Frames(waits)) + Framed([Frame(next)])[..arrived];
      && Split(s) == (Frames(waits), Framed([Frame(next)])[..arrived])
      && Values(Split(s).0, parse) == Parsed(Lines(waits), parse)
  {
    hide Split, SelfContained, NoSeparator, Parsed;
    forall w: Wait | w in waits || w == next
      ensures SelfContained(Frame(w))
    {
      FrameIsSelfContained(w);
    }
    assert forall i | 0 <= i < |waits| :: waits[i] in waits;
    PartOfFrame(Frame(next), arrived);
    SplitFramed(Frames(waits), Framed([Frame(next)])[..arrived]);
    TextsOfFrames(waits);
  }

  lemma FrameIsSelfContained(w: Wait)
    requires w.Line? ==> SelfContained(w.json)
    ensures SelfContained(Frame(w))
  {
    match w
    case Line(json) =>
      LineIsCarriedIff(json);
      assert [DATA + json][0] == DATA + json;
    case TimedOut =>
      NewlineFreeIsSelfContained(": keep-alive");
  }

  lemma PartOfFrame(frame: string, arrived: nat)
    requires SelfContained(frame) && arrived < |Framed([frame])|
    ensures NoSeparator(Framed([frame])[..arrived])
  {
    assert Framed([frame]) == frame + SEPARATOR + "";
    SelfContainedMeans(frame);
    var part := Framed([frame])[..arrived];
    assert part <= frame + "\n";
    assert forall i | 0 <= i < |part| && SeparatorAt(part, i) :: SeparatorAt(frame + "\n", i);
  }

  lemma {:induction false} TextsOfFrames(waits: seq<Wait>)
    ensures Texts(Frames(waits)) == Lines(waits)
  {
    if waits != [] {
      TextsOfFrames(waits[1..]);
      assert Frames(waits)[1..] == Frames(waits[1..]);
      match waits[0]
      case Line(json) => assert (DATA + json)[|DATA|..] == json;
      case TimedOut => assert (": keep-alive")[0] != DATA[0];
    }
  }

  /** The text is what the server has framed for these waits, and as much of
      the frame of one more as has arrived. */
  predicate StreamedSoFar(text: string, waits: seq<Wait>, next: Wait, arrived: nat) {
    && arrived < |Framed([Frame(next)])|
    && text == Framed(Frames(waits)) + Framed([Frame(next)])[..arrived]
  }

  lemma FramedFirst(waits: seq<Wait>)
    requires waits != []
    ensures Framed(Frames(waits)) == Framed([Frame(waits[0])]) + Framed(Frames(waits[1..]))
  {
    assert Frames(waits)[1..] == Frames(waits[1..]);
    assert Framed([Frame(waits[0])]) == Frame(waits[0]) + SEPARATOR + "";
  }

  /** Wherever the server's stream is cut, so many frames are whole and the
      next one is in part. */
  lemma {:induction false} CutAnywhere(waits: seq<Wait>, cut: nat) returns (n: nat, arrived: nat)
    requires cut < |Framed(Frames(waits))|
    ensures n < |waits| && StreamedSoFar(Framed(Frames(waits))[..cut], waits[..n], waits[n], arrived)
    decreases |waits|
  {
    assert waits == [] ==> Frames(waits) == [] && Framed(Frames(waits)) == "";
    hide Framed, Frame, Frames, StreamedSoFar;
    FramedFirst(waits);
    if cut < |Framed([Frame(waits[0])])| {
      n, arrived := 0, cut;
      CutInFirst(waits, cut);
    } else {
      var k, part := CutAnywhere(waits[1..], cut - |Framed([Frame(waits[0])])|);
      n, arrived := k + 1, part;
      assert waits[1..][k] == waits[n];
      CutInRest(waits, cut, k, arrived);
    }
  }

  lemma CutInFirst(waits: seq<Wait>, cut: nat)
    requires waits != [] && cut < |Framed([Frame(waits[0])])|
    ensures cut < |Framed(Frames(waits))|
    ensures StreamedSoFar(Framed(Frames(waits))[..cut], waits[..0], waits[0], cut)
  {
    FramedFirst(waits);
    hide Frame;
    var first := Framed([Frame(waits[0])]);
    assert Framed(Frames(waits[..0])) == "";
    assert (first + Framed(Frames(waits[1..])))[..cut] == "" + first[..cut];
  }

  lemma CutInRest(waits: seq<Wait>, cut: nat, k: nat, arrived: nat)
    requires k + 1 < |waits| && |Framed([Frame(waits[0])])| <= cut <= |Framed(Frames(waits))|
    requires cut - |Framed([Frame(waits[0])])| <= |Framed(Frames(waits[1..]))|
    requires StreamedSoFar(Framed(Frames(waits[1..]))[..cut - |Framed([Frame(waits[0])])|],
                           waits[1..][..k], waits[k + 1], arrived)
    ensures StreamedSoFar(Framed(Frames(waits))[..cut], waits[..k + 1], waits[k + 1], arrived)
  {
    hide Framed, Frame, Frames;
    FramedFirst(waits);
    FramedFirst(waits[..k + 1]);
    assert waits[..k + 1][1..] == waits[1..][..k] && waits[..k + 1][0] == waits[0];
    var first, rest := Framed([Frame(waits[0])]), Framed(Frames(waits[1..]));
    var part := Framed([Frame(waits[k + 1])])[..arrived];
    CutBehind(first, rest, cut);
    assert first + (Framed(Frames(waits[1..][..k])) + part) == first + Framed(Frames(waits[1..][..k])) + part;
  }

  lemma CutBehind(a: string, b: string, cut: nat)
    requires |a| <= cut <= |a| + |b|
    ensures (a + b)[..cut] == a + b[..cut - |a|]
  {
  }

  predicate AllSelfContained(waits: seq<Wait>) {
    forall i :: 0 <= i < |waits| ==> waits[i].Line? ==> SelfContained(waits[i].json)
  }

  /** From the server's sink to the client's callback: however what the server
      framed is cut into chunks, and wherever it is cut off, the callback has
      been given exactly the parsed lines whose frames arrived whole, in order,
      and the buffer holds exactly the rest. */
  method FollowStream<J>(parse: string -> Option<J>, arrivals: seq<Arrival>,
                         ghost waits: seq<Wait>, ghost next: Wait, ghost arrived: nat)
    returns (client: Subscriber<J>)
    requires AllSelfContained(waits + [next])
    requires StreamedSoFar(Received(arrivals[..Taken(arrivals)]), waits, next, arrived)
    ensures fresh(client)
    ensures client.delivered == Parsed(Lines(waits), parse)
    ensures client.buffer == Framed([Frame(next)])[..arrived]
  {
    hide Split, Values, Parsed, Lines, Framed, Frames, SelfContained;
    assert forall i | 0 <= i < |waits| :: (waits + [next])[i] == waits[i];
    assert (waits + [next])[|waits|] == next;
    StreamIsReadBack(waits, next, arrived, parse);
    client := new Subscriber(parse);
    client.Subscribe(arrivals);
  }
}
