/** The application's main component: it starts the demo, shows whether the
    Push 2 came up, and once it has, keeps a rolling log of the last few
    3-byte MIDI messages the Push 2 sent, shown as a status text. */
module MainComponent {
  import opened Wrappers
  import opened NBase
  import DisplayBridge
  import opened Push2Demo

  /** How many formatted messages the log keeps. */
  const MaxLogEntries: nat := 4

  /** The status shown once the demo is up. */
  const ConnectedStatus: string := "Push 2 connected"

  const HexDigits: string := "0123456789ABCDEF"

  /** The only callback the component installs: its `processMidiInput`. */
  datatype Callback = ProcessMidiInputCallback

  /** The component's state: the demo it owns, the status label's text and
      the log of formatted messages (`midiMessageStack_`), oldest first. */
  datatype Component = Component(demo: Demo<Callback>, status: string, midiMessageStack: seq<string>)

  // ---------------------------------------------------------------------------
  // Formatting

  predicate IsUpperHexDigit(c: char) {
    '0' <= c <= '9' || 'A' <= c <= 'F'
  }

  /** A byte as the stream writes it with `uppercase`, `setfill('0')`,
      `setw(2)` and `hex`: exactly two upper-case hex digits. */
  function Hex2(b: Byte): (s: string)
    ensures |s| == 2 && IsUpperHexDigit(s[0]) && IsUpperHexDigit(s[1])
  {
    [HexDigits[b / 16], HexDigits[b % 16]]
  }

  function HexDigitValue(c: char): (v: nat)
    requires IsUpperHexDigit(c)
    ensures v < 16
  {
    if '0' <= c <= '9' then c as int - '0' as int else c as int - 'A' as int + 10
  }

  /** Reads back two upper-case hex digits; anything else is rejected. */
  function ParseHex2(s: string): Option<Byte> {
    if |s| == 2 && IsUpperHexDigit(s[0]) && IsUpperHexDigit(s[1]) then
      Some(HexDigitValue(s[0]) * 16 + HexDigitValue(s[1]))
    else
      None
  }

  lemma HexDigitRoundTrip(d: nat)
    requires d < 16
    ensures HexDigitValue(HexDigits[d]) == d
  {
  }

  /** An upper-case hex digit is the digit written for its value. */
  lemma DigitOfValue(c: char)
    requires IsUpperHexDigit(c)
    ensures HexDigits[HexDigitValue(c)] == c
  {
  }

  /** Every byte is read back from its two digits. */
  lemma Hex2RoundTrip(b: Byte)
    ensures ParseHex2(Hex2(b)) == Some(b)
  {
    HexDigitRoundTrip(b / 16);
    HexDigitRoundTrip(b % 16);
  }

  /** A byte's two hex digits are its quotient and remainder by 16. */
  lemma SplitByte(hi: nat, lo: nat)
    requires hi < 16 && lo < 16
    ensures (hi * 16 + lo) / 16 == hi && (hi * 16 + lo) % 16 == lo
  {
  }

  /** Two upper-case hex digits are exactly what `Hex2` writes for the byte
      they denote, so the formatting is a bijection onto them. */
  lemma ParseHex2RoundTrip(s: string)
    requires ParseHex2(s).Some?
    ensures Hex2(ParseHex2(s).value) == s
  {
    var hi, lo := HexDigitValue(s[0]), HexDigitValue(s[1]);
    SplitByte(hi, lo);
    DigitOfValue(s[0]);
    DigitOfValue(s[1]);
    var b: Byte := hi * 16 + lo;
    assert ParseHex2(s) == Some(b);
    assert Hex2(b) == [HexDigits[hi], HexDigits[lo]];
    assert s == [s[0], s[1]];
  }

  /** The text `processMidiInput` writes for a 3-byte message: the timestamp's
      text in parentheses followed by ` :`, then each byte as `0x` and two
      upper-case hex digits, separated by ` - `. */
  function FormatEntry(timeStampText: string, data: seq<Byte>): (e: string)
    requires |data| == 3
    ensures |e| == |timeStampText| + 27
    ensures e[..6] == "Midi (" && e[6..6 + |timeStampText|] == timeStampText
  {
    "Midi (" + timeStampText + ") :"
      + "0x" + Hex2(data[0]) + " - "
      + "0x" + Hex2(data[1]) + " - "
      + "0x" + Hex2(data[2])
  }

  /** Reads an entry back into its timestamp text and three bytes. */
  function ParseEntry(e: string): Option<(string, seq<Byte>)> {
    if |e| < 27 || e[..6] != "Midi (" then None
    else
      var tail := e[|e| - 21..];
      var b0, b1, b2 := ParseHex2(tail[5..7]), ParseHex2(tail[12..14]), ParseHex2(tail[19..21]);
      if tail[..5] == ") :0x" && tail[7..12] == " - 0x" && tail[14..19] == " - 0x"
         && b0.Some? && b1.Some? && b2.Some?
      then Some((e[6..|e| - 21], [b0.value, b1.value, b2.value]))
      else None
  }

  /** An entry determines the message it was made from. */
  lemma EntryRoundTrip(timeStampText: string, data: seq<Byte>)
    requires |data| == 3
    ensures ParseEntry(FormatEntry(timeStampText, data)) == Some((timeStampText, data))
  {
    var e := FormatEntry(timeStampText, data);
    var h0, h1, h2 := Hex2(data[0]), Hex2(data[1]), Hex2(data[2]);
    var tail := ") :0x" + h0 + " - 0x" + h1 + " - 0x" + h2;
    assert e == "Midi (" + timeStampText + tail;
    assert e[|e| - 21..] == tail;
    assert tail[..5] == ") :0x";
    assert tail[5..7] == h0 by { assert tail[5] == h0[0] && tail[6] == h0[1]; }
    assert tail[7..12] == " - 0x";
    assert tail[12..14] == h1 by { assert tail[12] == h1[0] && tail[13] == h1[1]; }
    assert tail[14..19] == " - 0x";
    assert tail[19..21] == h2 by { assert tail[19] == h2[0] && tail[20] == h2[1]; }
    Hex2RoundTrip(data[0]);
    Hex2RoundTrip(data[1]);
    Hex2RoundTrip(data[2]);
    assert [data[0], data[1], data[2]] == data;
    assert e[6..|e| - 21] == timeStampText;
  }

  // ---------------------------------------------------------------------------
  // The bounded log and the status text

  /** The last `n` elements of `s`, or all of them when there are fewer. */
  function LastN<T>(s: seq<T>, n: nat): (r: seq<T>)
    ensures |r| <= n && |r| <= |s|
  {
    if |s| <= n then s else s[|s| - n..]
  }

  /** `push_back` followed by one `pop_front` when the log grew past its
      capacity. */
  function PushEntry(log: seq<string>, entry: string): (r: seq<string>)
    ensures |log| <= MaxLogEntries ==> r == LastN(log + [entry], MaxLogEntries)
  {
    var grown := log + [entry];
    if |grown| > MaxLogEntries then grown[1..] else grown
  }

  /** The log left by pushing `entries` one by one onto an empty log. */
  function LogAfter(entries: seq<string>): seq<string> {
    if |entries| == 0 then [] else PushEntry(LogAfter(entries[..|entries| - 1]), entries[|entries| - 1])
  }

  lemma LastNSnoc(s: seq<string>, x: string, n: nat)
    requires n > 0
    ensures LastN(s + [x], n) == LastN(LastN(s, n) + [x], n)
  {
  }

  /** The log always holds the latest `MaxLogEntries` entries, oldest first. */
  lemma {:induction false} LogKeepsLatest(entries: seq<string>)
    ensures LogAfter(entries) == LastN(entries, MaxLogEntries)
  {
    if |entries| > 0 {
      var init := entries[..|entries| - 1];
      LogKeepsLatest(init);
      LastNSnoc(init, entries[|entries| - 1], MaxLogEntries);
      assert init + [entries[|entries| - 1]] == entries;
    }
  }

  /** The status label's text: every entry followed by a newline. */
  function StatusText(log: seq<string>): (t: string)
    ensures |log| > 0 ==> |t| > 0 && t[|t| - 1] == '\n'
  {
    if |log| == 0 then "" else log[0] + "\n" + StatusText(log[1..])
  }

  /** The position of the first `c` in `s`, or `|s|` if there is none. */
  function IndexOf(s: string, c: char): (k: nat)
    ensures k <= |s| && (k < |s| ==> s[k] == c)
    ensures forall j :: 0 <= j < k ==> s[j] != c
  {
    if |s| == 0 then 0 else if s[0] == c then 0 else 1 + IndexOf(s[1..], c)
  }

  /** Splits a text into its newline-terminated lines; a last line without
      a newline counts as a line too. */
  function SplitLines(s: string): seq<string>
    decreases |s|
  {
    if |s| == 0 then []
    else
      var k := IndexOf(s, '\n');
      if k == |s| then [s] else [s[..k]] + SplitLines(s[k + 1..])
  }

  /** `s` holds no newline. */
  predicate NoNewline(s: string) {
    forall k :: 0 <= k < |s| ==> s[k] != '\n'
  }

  /** A formatted entry is one line as long as the timestamp text is. */
  lemma EntryHasNoNewline(timeStampText: string, data: seq<Byte>)
    requires |data| == 3 && NoNewline(timeStampText)
    ensures NoNewline(FormatEntry(timeStampText, data))
  {
  }

  /** The status text lists the log one entry per line: splitting it into
      lines gives the log back, so it has exactly as many lines as entries. */
  lemma {:induction false} StatusTextLines(log: seq<string>)
    requires forall i :: 0 <= i < |log| ==> NoNewline(log[i])
    ensures SplitLines(StatusText(log)) == log
  {
    if |log| > 0 {
      var t := StatusText(log);
      var rest := StatusText(log[1..]);
      assert t == log[0] + "\n" + rest;
      assert t[|log[0]|] == '\n';
      assert IndexOf(t, '\n') == |log[0]|;
      assert t[..|log[0]|] == log[0];
      assert t[|log[0]| + 1..] == rest;
      StatusTextLines(log[1..]);
    }
  }

  // ---------------------------------------------------------------------------
  // The component

  /** `processMidiInput`: a message of exactly three raw bytes is formatted,
      pushed onto the log, and the status becomes the log's text; any other
      message leaves the component as it was. */
  function ProcessMidiInput(c: Component, message: MidiMessage): (c': Component)
    ensures |message.rawData| != 3 ==> c' == c
    ensures |message.rawData| == 3 ==>
              && c'.demo == c.demo
              && |c'.midiMessageStack| > 0
              && c'.midiMessageStack[|c'.midiMessageStack| - 1] == FormatEntry(message.timeStampText, message.rawData)
              && c'.status == StatusText(c'.midiMessageStack)
    ensures |c.midiMessageStack| <= MaxLogEntries ==> |c'.midiMessageStack| <= MaxLogEntries
    ensures |message.rawData| == 3 && |c.midiMessageStack| <= MaxLogEntries ==>
              c'.midiMessageStack ==
              LastN(c.midiMessageStack + [FormatEntry(message.timeStampText, message.rawData)], MaxLogEntries)
  {
    if |message.rawData| == 3 then
      var log := PushEntry(c.midiMessageStack, FormatEntry(message.timeStampText, message.rawData));
      c.(midiMessageStack := log, status := StatusText(log))
    else
      c
  }

  /** The constructor: starts the demo and, when it is up, shows that the
      Push 2 is connected and installs `processMidiInput` as the demo's MIDI
      callback; otherwise it shows the failure's description and installs
      nothing. `image` is the uncleared image the demo's bridge is built with;
      the other parameters are what the display and MIDI drivers report. */
  method Construct(image: DisplayBridge.Image, displayInit: Result, devices: seq<string>,
                   openDevice: nat -> Option<DeviceHandle>)
    returns (c: Component, result: Result)
    ensures c.midiMessageStack == []
    ensures result.Succeeded() ==>
              c.status == ConnectedStatus && c.demo.midiCallback == Some(ProcessMidiInputCallback) &&
              c.demo.timerHz == Some(TimerHz)
    ensures !result.Succeeded() ==>
              c.status == result.GetDescription() && c.demo.midiCallback.None? && c.demo.timerHz.None?
    ensures !result.Succeeded() ==> c.status == DisplayInitFailed || c.status == MidiInitFailed
    ensures !displayInit.Succeeded() ==> c.status == DisplayInitFailed
    ensures displayInit.Succeeded() && NoMatch(devices) ==> c.status == MidiInitFailed
    ensures displayInit.Succeeded() ==>
              forall i: nat :: IsFirstMatch(devices, i) && openDevice(i).None? ==> c.status == MidiInitFailed
    ensures displayInit.Succeeded() ==>
              forall i: nat :: IsFirstMatch(devices, i) && openDevice(i).Some? ==> result.Succeeded()
    ensures displayInit.Succeeded() ==>
              forall i: nat :: IsFirstMatch(devices, i) && openDevice(i).Some? ==>
                c.demo.midiInput == Some(MidiInput(openDevice(i).value, true))
    ensures result.Succeeded() ==>
              c.demo.bridge.display == Some(DemoDisplay) && c.demo.bridge.image == image &&
              c.demo.elapsedTicks == 0
  {
    var demo: Demo<Callback> := NewDemo(image);
    var attempted;
    demo, result, attempted := Push2Demo.Init(demo, displayInit, devices, openDevice);
    if result.Succeeded() {
      c := Component(SetMidiInputCallback(demo, Some(ProcessMidiInputCallback)), ConnectedStatus, []);
    } else {
      c := Component(demo, result.GetDescription(), []);
    }
  }

  /** A message arriving from the Push 2: the demo forwards it to the
      installed callback, which is the component's `processMidiInput`. */
  function DeliverMidi(c: Component, message: MidiMessage): (c': Component)
    ensures c.demo.midiCallback.None? ==> c' == c
    ensures c.demo.midiCallback.Some? ==> c' == ProcessMidiInput(c, message)
  {
    var calls := HandleIncomingMidiMessage(c.demo, message);
    if |calls| == 1 then
      match calls[0].0
      case ProcessMidiInputCallback => ProcessMidiInput(c, calls[0].1)
    else
      c
  }

  /** The component after `messages` arrive, in order. */
  function DeliverAll(c: Component, messages: seq<MidiMessage>): Component {
    if |messages| == 0 then c
    else DeliverMidi(DeliverAll(c, messages[..|messages| - 1]), messages[|messages| - 1])
  }

  /** The entries made for the messages `processMidiInput` accepts. */
  function AcceptedEntries(messages: seq<MidiMessage>): seq<string> {
    if |messages| == 0 then []
    else
      var last := messages[|messages| - 1];
      AcceptedEntries(messages[..|messages| - 1])
        + (if |last.rawData| == 3 then [FormatEntry(last.timeStampText, last.rawData)] else [])
  }

  /** Without a callback, messages change nothing: a component whose demo
      failed to start keeps showing the failure. */
  lemma {:induction false} DisconnectedIgnoresMidi(c: Component, messages: seq<MidiMessage>)
    requires c.demo.midiCallback.None?
    ensures DeliverAll(c, messages) == c
  {
    if |messages| > 0 {
      DisconnectedIgnoresMidi(c, messages[..|messages| - 1]);
    }
  }

  /** With the callback installed and an empty log, the log always holds the
      entries of the latest (at most four) accepted messages, oldest first,
      the status text shows them, and the demo itself is left alone. */
  lemma {:induction false} ConnectedLogKeepsLatest(c: Component, messages: seq<MidiMessage>)
    requires c.demo.midiCallback.Some? && c.midiMessageStack == []
    ensures DeliverAll(c, messages).demo == c.demo
    ensures DeliverAll(c, messages).midiMessageStack == LogAfter(AcceptedEntries(messages))
    ensures |AcceptedEntries(messages)| > 0 ==>
              DeliverAll(c, messages).status == StatusText(DeliverAll(c, messages).midiMessageStack)
    ensures |AcceptedEntries(messages)| == 0 ==> DeliverAll(c, messages) == c
  {
    if |messages| > 0 {
      var init := messages[..|messages| - 1];
      ConnectedLogKeepsLatest(c, init);
      var before := AcceptedEntries(init);
      var last := messages[|messages| - 1];
      if |last.rawData| == 3 {
        var entry := FormatEntry(last.timeStampText, last.rawData);
        assert AcceptedEntries(messages) == before + [entry];
        assert (before + [entry])[..|before|] == before;
      } else {
        assert AcceptedEntries(messages) == before;
      }
    }
  }

  /** Once connected, the log never holds more than `MaxLogEntries` entries
      and is always the latest accepted ones. */
  lemma ConnectedLogIsBounded(c: Component, messages: seq<MidiMessage>)
    requires c.demo.midiCallback.Some? && c.midiMessageStack == []
    ensures DeliverAll(c, messages).midiMessageStack == LastN(AcceptedEntries(messages), MaxLogEntries)
    ensures |DeliverAll(c, messages).midiMessageStack| <= MaxLogEntries
  {
    ConnectedLogKeepsLatest(c, messages);
    LogKeepsLatest(AcceptedEntries(messages));
  }

  /** The entry for the bytes 0x90 0x3C 0x7F at time 1.5, as the code writes
      it: a space before the colon and none after it. */
  lemma FormatEntryExample()
    ensures FormatEntry("1.5", [0x90, 0x3C, 0x7F]) == "Midi (1.5) :0x90 - 0x3C - 0x7F"
  {
  }
}
