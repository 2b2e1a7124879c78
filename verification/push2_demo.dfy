/** The demo object: it brings up the Push 2 display, binds the display
    bridge to it and opens the Push 2 MIDI input, then forwards every incoming
    MIDI message to a callback its owner may install. */
module Push2Demo {
  import opened Wrappers
  import opened NBase
  import DisplayBridge

  /** The name every Push 2 MIDI input contains, compared ignoring case. */
  const TargetDeviceName: string := "ableton push 2"

  /** The description returned when no input's name contains the target. */
  const DeviceNotFound: string := "Failed to find input midi device for push2"

  /** The description returned when the driver cannot open the found input. */
  const OpenFailed: string := "Failed to open input device"

  /** The stage messages `Demo::Init` attaches to a failed step. */
  const DisplayInitFailed: string := "Failed to init push2"
  const MidiInitFailed: string := "Failed to open midi device"

  /** The timer rate the animation is started at once everything is up. */
  const TimerHz: nat := 60

  /** The display the demo owns; the bridge is bound to it. */
  const DemoDisplay: DisplayBridge.DisplayRef := DisplayBridge.DisplayRef(0)

  type Byte = b: int | 0 <= b < 256

  /** A MIDI message as the driver delivers it: its raw bytes and the text the
      stream operator writes for its timestamp. */
  datatype MidiMessage = MidiMessage(rawData: seq<Byte>, timeStampText: string)

  /** What the driver's `openDevice` hands back for an opened input. */
  type DeviceHandle = nat

  /** The opened input the demo keeps, and whether it has been started. */
  datatype MidiInput = MidiInput(handle: DeviceHandle, listening: bool)

  /** The steps of `Demo::Init`, in the order it runs them. */
  datatype Stage = DisplayStage | BridgeStage | MidiStage

  /** The demo's state; `C` is the type of the callback its owner installs.
      `elapsedTicks` counts animation ticks since the last reset. */
  datatype Demo<C> = Demo(
    bridge: DisplayBridge.Bridge,
    midiInput: Option<MidiInput>,
    midiCallback: Option<C>,
    elapsedTicks: nat,
    timerHz: Option<nat>)

  /** A freshly constructed demo: nothing bound, opened, installed or started. */
  function NewDemo<C>(image: DisplayBridge.Image): (d: Demo<C>)
    ensures d.bridge.display.None? && d.bridge.image == image
    ensures d.midiInput.None? && d.midiCallback.None? && d.timerHz.None?
  {
    Demo(DisplayBridge.NewBridge(image), None, None, 0, None)
  }

  // ---------------------------------------------------------------------------
  // Case-insensitive substring search

  /** `toupper` restricted to ASCII: lower-case letters become upper-case,
      every other character is left as it is. */
  function ToUpper(c: char): char {
    if 'a' <= c <= 'z' then (c as int - 32) as char else c
  }

  function ToLower(c: char): char {
    if 'A' <= c <= 'Z' then (c as int + 32) as char else c
  }

  function UpperString(s: string): (u: string)
    ensures |u| == |s| && forall k :: 0 <= k < |s| ==> u[k] == ToUpper(s[k])
  {
    seq(|s|, k requires 0 <= k < |s| => ToUpper(s[k]))
  }

  function LowerString(s: string): (l: string)
    ensures |l| == |s| && forall k :: 0 <= k < |s| ==> l[k] == ToLower(s[k])
  {
    seq(|s|, k requires 0 <= k < |s| => ToLower(s[k]))
  }

  /** The comparison handed to `std::search`. */
  predicate SameNoCase(a: char, b: char) {
    ToUpper(a) == ToUpper(b)
  }

  /** `needle` occurs in `haystack` at offset `i`, ignoring case. */
  predicate MatchesAt(haystack: string, needle: string, i: nat)
    requires i + |needle| <= |haystack|
  {
    forall k :: 0 <= k < |needle| ==> SameNoCase(haystack[i + k], needle[k])
  }

  /** `std::search` over `haystack[i..]`: the first offset from `i` at which
      `needle` occurs, or `|haystack|` (the end iterator) when there is none.
      An empty needle occurs at `i` itself. */
  function SearchFrom(haystack: string, needle: string, i: nat): (r: nat)
    requires i <= |haystack|
    ensures i <= r <= |haystack|
    ensures r + |needle| <= |haystack| ==> MatchesAt(haystack, needle, r)
    ensures r + |needle| > |haystack| ==> r == |haystack|
    ensures forall j :: i <= j < r && j + |needle| <= |haystack| ==> !MatchesAt(haystack, needle, j)
    decreases |haystack| - i
  {
    if i + |needle| > |haystack| then |haystack|
    else if MatchesAt(haystack, needle, i) then i
    else SearchFrom(haystack, needle, i + 1)
  }

  /** The search stops before the end exactly when the needle occurs
      somewhere, ignoring case, in a non-empty haystack. */
  lemma SearchFindsOccurrence(haystack: string, needle: string)
    ensures SearchFrom(haystack, needle, 0) != |haystack| <==>
            |haystack| > 0 &&
            exists i: nat :: i + |needle| <= |haystack| && MatchesAt(haystack, needle, i)
  {
    var r := SearchFrom(haystack, needle, 0);
    if |needle| == 0 {
      assert MatchesAt(haystack, needle, 0);
      assert r == 0;
    } else if r != |haystack| {
      assert r + |needle| <= |haystack| && MatchesAt(haystack, needle, r);
    }
  }

  /** `SMatchSubStringNoCase`: the search did not stop at the end, which
      holds exactly when the needle occurs somewhere, ignoring case, in a
      non-empty haystack. */
  function MatchSubStringNoCase(haystack: string, needle: string): (matched: bool)
    ensures matched <==>
            |haystack| > 0 &&
            exists i: nat :: i + |needle| <= |haystack| && MatchesAt(haystack, needle, i)
  {
    SearchFindsOccurrence(haystack, needle);
    SearchFrom(haystack, needle, 0) != |haystack|
  }

  /** Because an empty needle occurs at the start, it is reported as a match
      exactly when the haystack has a start that is not also its end. */
  lemma EmptyNeedleMatchesNonEmpty(haystack: string)
    ensures MatchSubStringNoCase(haystack, "") <==> |haystack| > 0
  {
    assert MatchesAt(haystack, "", 0);
  }

  /** The search only ever compares upper-cased characters. */
  lemma {:induction false} SearchFromIgnoresCase(h1: string, n1: string, h2: string, n2: string, i: nat)
    requires |h1| == |h2| && |n1| == |n2| && i <= |h1|
    requires forall k :: 0 <= k < |h1| ==> ToUpper(h1[k]) == ToUpper(h2[k])
    requires forall k :: 0 <= k < |n1| ==> ToUpper(n1[k]) == ToUpper(n2[k])
    ensures SearchFrom(h1, n1, i) == SearchFrom(h2, n2, i)
    decreases |h1| - i
  {
    if i + |n1| <= |h1| {
      assert MatchesAt(h1, n1, i) <==> MatchesAt(h2, n2, i);
      if !MatchesAt(h1, n1, i) {
        SearchFromIgnoresCase(h1, n1, h2, n2, i + 1);
      }
    }
  }

  /** Upper- or lower-casing either argument never changes the match. */
  lemma MatchIgnoresCase(haystack: string, needle: string)
    ensures MatchSubStringNoCase(UpperString(haystack), needle) == MatchSubStringNoCase(haystack, needle)
    ensures MatchSubStringNoCase(LowerString(haystack), needle) == MatchSubStringNoCase(haystack, needle)
    ensures MatchSubStringNoCase(haystack, UpperString(needle)) == MatchSubStringNoCase(haystack, needle)
    ensures MatchSubStringNoCase(haystack, LowerString(needle)) == MatchSubStringNoCase(haystack, needle)
  {
    SearchFromIgnoresCase(UpperString(haystack), needle, haystack, needle, 0);
    SearchFromIgnoresCase(LowerString(haystack), needle, haystack, needle, 0);
    SearchFromIgnoresCase(haystack, UpperString(needle), haystack, needle, 0);
    SearchFromIgnoresCase(haystack, LowerString(needle), haystack, needle, 0);
  }

  /** The target name itself, in title case, identifies a Push 2 input. */
  lemma TitleCaseNameMatches()
    ensures MatchSubStringNoCase("Ableton Push 2", TargetDeviceName)
  {
    MatchAtExample("Ableton Push 2", 0);
  }

  /** The target name in capitals identifies a Push 2 input. */
  lemma UpperCaseNameMatches()
    ensures MatchSubStringNoCase("ABLETON PUSH 2", TargetDeviceName)
  {
    MatchAtExample("ABLETON PUSH 2", 0);
  }

  /** A longer name containing the target name identifies a Push 2 input. */
  lemma EmbeddedNameMatches()
    ensures MatchSubStringNoCase("my ableton push 2 controller", TargetDeviceName)
  {
    MatchAtExample("my ableton push 2 controller", 3);
  }

  /** A name too short to hold the target name does not identify one. */
  lemma NonTargetNameExample()
    ensures !MatchSubStringNoCase("ableton push1", TargetDeviceName)
  {
    assert |"ableton push1"| < |TargetDeviceName|;
  }

  lemma MatchAtExample(name: string, i: nat)
    requires i + |TargetDeviceName| <= |name|
    requires forall k :: 0 <= k < |TargetDeviceName| ==> ToUpper(name[i + k]) == ToUpper(TargetDeviceName[k])
    ensures MatchSubStringNoCase(name, TargetDeviceName)
  {
    assert MatchesAt(name, TargetDeviceName, i);
  }

  // ---------------------------------------------------------------------------
  // Opening the Push 2 MIDI input

  /** Input `i` is the first one whose name contains the target name. */
  predicate IsFirstMatch(devices: seq<string>, i: nat) {
    && i < |devices|
    && MatchSubStringNoCase(devices[i], TargetDeviceName)
    && forall j :: 0 <= j < i ==> !MatchSubStringNoCase(devices[j], TargetDeviceName)
  }

  /** There is at most one first match. */
  lemma FirstMatchIsUnique(devices: seq<string>, i: nat, j: nat)
    requires IsFirstMatch(devices, i) && IsFirstMatch(devices, j)
    ensures i == j
  {
  }

  /** No input's name contains the target name. */
  predicate NoMatch(devices: seq<string>) {
    forall j :: 0 <= j < |devices| ==> !MatchSubStringNoCase(devices[j], TargetDeviceName)
  }

  /** The scan of `openMidiDevice`: the index of the first input whose name
      contains the target name, or -1 when none does. */
  method FindDeviceIndex(devices: seq<string>) returns (deviceIndex: int)
    ensures -1 <= deviceIndex < |devices|
    ensures deviceIndex >= 0 ==> IsFirstMatch(devices, deviceIndex)
    ensures deviceIndex == -1 <==> NoMatch(devices)
  {
    deviceIndex := -1;
    var index := 0;
    while index < |devices|
      invariant 0 <= index <= |devices|
      invariant forall j :: 0 <= j < index ==> !MatchSubStringNoCase(devices[j], TargetDeviceName)
    {
      if MatchSubStringNoCase(devices[index], TargetDeviceName) {
        deviceIndex := index;
        break;
      }
      index := index + 1;
    }
  }

  /** `openMidiDevice`: finds the first Push 2 input among `devices` (what
      `getDevices` lists) and opens it with `openDevice`, which yields the
      driver's handle or nothing; an opened input is started. `deviceIndex`
      is the input chosen, or -1. */
  method OpenMidiDevice(devices: seq<string>, openDevice: nat -> Option<DeviceHandle>)
    returns (result: Result, midiInput: Option<MidiInput>, deviceIndex: int)
    ensures -1 <= deviceIndex < |devices|
    ensures result.Succeeded() <==> midiInput.Some?
    ensures deviceIndex == -1 <==> NoMatch(devices)
    ensures deviceIndex == -1 ==> result == Error(DeviceNotFound)
    ensures deviceIndex >= 0 ==> IsFirstMatch(devices, deviceIndex)
    ensures deviceIndex >= 0 && openDevice(deviceIndex).None? ==> result == Error(OpenFailed)
    ensures deviceIndex >= 0 && openDevice(deviceIndex).Some? ==>
              result == NoError && midiInput == Some(MidiInput(openDevice(deviceIndex).value, true))
  {
    deviceIndex := FindDeviceIndex(devices);
    if deviceIndex == -1 {
      return Error(DeviceNotFound), None, deviceIndex;
    }
    var input := openDevice(deviceIndex);
    if input.None? {
      return Error(OpenFailed), None, deviceIndex;
    }
    result, midiInput := NoError, Some(MidiInput(input.value, true));
  }

  // ---------------------------------------------------------------------------
  // Initialisation, callback installation and forwarding

  /** `Demo::Init`: brings up the display (whose outcome the USB layer reports
      as `displayInit`), binds the bridge to it, then opens the MIDI input;
      the first failing step ends the sequence with that step's message. Only
      when all three succeed is the elapsed time reset and the timer started.
      `attempted` lists each step run, with its outcome. */
  method Init<C>(demo: Demo<C>, displayInit: Result, devices: seq<string>,
                 openDevice: nat -> Option<DeviceHandle>)
    returns (demo': Demo<C>, result: Result, attempted: seq<(Stage, Result)>)
    ensures 1 <= |attempted| <= 3
    ensures attempted[0] == (DisplayStage, displayInit)
    ensures |attempted| >= 2 ==> attempted[1].0 == BridgeStage
    ensures |attempted| == 3 ==> attempted[2].0 == MidiStage
    ensures forall k :: 0 <= k < |attempted| - 1 ==> attempted[k].1.Succeeded()
    ensures |attempted| < 3 ==> !attempted[|attempted| - 1].1.Succeeded()
    ensures |attempted| >= 2 ==> attempted[1].1 == NoError
    ensures result.Succeeded() <==> |attempted| == 3 && attempted[2].1.Succeeded()
    ensures !displayInit.Succeeded() ==> |attempted| == 1 && result == Error(DisplayInitFailed) && demo' == demo
    ensures displayInit.Succeeded() ==> |attempted| == 3
    ensures displayInit.Succeeded() ==> demo'.bridge.display == Some(DemoDisplay)
    ensures |attempted| == 3 && !attempted[2].1.Succeeded() ==> result == Error(MidiInitFailed)
    ensures |attempted| == 3 && NoMatch(devices) ==> attempted[2].1 == Error(DeviceNotFound)
    ensures |attempted| == 3 ==>
              forall i: nat :: IsFirstMatch(devices, i) && openDevice(i).None? ==> attempted[2].1 == Error(OpenFailed)
    ensures |attempted| == 3 ==>
              forall i: nat :: IsFirstMatch(devices, i) && openDevice(i).Some? ==>
                attempted[2].1 == NoError && demo'.midiInput == Some(MidiInput(openDevice(i).value, true))
    ensures result.Succeeded() ==>
              demo'.bridge.display == Some(DemoDisplay) && demo'.midiInput.Some? &&
              demo'.elapsedTicks == 0 && demo'.timerHz == Some(TimerHz)
    ensures !result.Succeeded() ==>
              demo'.timerHz == demo.timerHz && demo'.elapsedTicks == demo.elapsedTicks &&
              demo'.midiInput == demo.midiInput
    ensures demo'.midiCallback == demo.midiCallback && demo'.bridge.image == demo.bridge.image
  {
    attempted := [(DisplayStage, displayInit)];
    result := FailWithMessage(displayInit, DisplayInitFailed);
    if !result.Succeeded() {
      return demo, result, attempted;
    }

    // The bridge's Init cannot fail, so the `RETURN_IF_FAILED_MESSAGE` after
    // `bridge_.Init` in `Demo::Init` (message "Failed to init bridge") never
    // fires.
    var (bridge, bridgeResult) := DisplayBridge.Init(demo.bridge, DemoDisplay);
    attempted := attempted + [(BridgeStage, bridgeResult)];
    demo' := demo.(bridge := bridge);

    var midiResult, midiInput, deviceIndex := OpenMidiDevice(devices, openDevice);
    forall i: nat | IsFirstMatch(devices, i)
      ensures i == deviceIndex
    {
      if deviceIndex == -1 {
        assert false;
      } else {
        FirstMatchIsUnique(devices, i, deviceIndex);
      }
    }
    attempted := attempted + [(MidiStage, midiResult)];
    result := FailWithMessage(midiResult, MidiInitFailed);
    if !result.Succeeded() {
      return demo', result, attempted;
    }

    demo' := demo'.(midiInput := midiInput, elapsedTicks := 0, timerHz := Some(TimerHz));
  }

  /** `SetMidiInputCallback`: installs `callback`, replacing any earlier one.
      An empty callback (`None`) clears it, after which incoming messages are
      dropped. */
  function SetMidiInputCallback<C>(demo: Demo<C>, callback: Option<C>): (d: Demo<C>)
    ensures d.midiCallback == callback
    ensures d == demo.(midiCallback := d.midiCallback)
  {
    demo.(midiCallback := callback)
  }

  /** `handleIncomingMidiMessage`: the calls it makes, each a callback with
      the message passed to it. A message is forwarded once, unchanged, to
      the installed callback, and dropped when there is none. */
  function HandleIncomingMidiMessage<C>(demo: Demo<C>, message: MidiMessage): (calls: seq<(C, MidiMessage)>)
    ensures demo.midiCallback.None? ==> calls == []
    ensures demo.midiCallback.Some? ==> calls == [(demo.midiCallback.value, message)]
  {
    match demo.midiCallback
    case None => []
    case Some(callback) => [(callback, message)]
  }
}
