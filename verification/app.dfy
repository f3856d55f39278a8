/**
 * The rules the control panel applies between the backend and its widgets:
 * picking the server jar, the console buffer capped at 1000 lines, the CPU
 * and RAM history capped at 100 samples, the widget a property value gets
 * and the text it is saved back as, and the label of a ban-list entry and
 * the name recovered from it. The widgets themselves are reduced to the
 * state they show: texts, flags and lists.
 */
module Ui {
  import opened Wrappers
  import opened Text
  import opened Config
  import opened Players
  import opened Server

  const ServerDir := "exampleserver"
  const DefaultJar := "server.jar"
  const JarSuffix := ".jar"
  const ConsoleLineLimit: nat := 1000
  const HistoryLimit: nat := 100
  const SampleEvery: nat := 10

  // ---------------------------------------------------------------------------
  // Jar detection
  // ---------------------------------------------------------------------------

  /**
   * `jar` is the jar the panel runs: the first entry of the server directory's
   * listing (`None` when the directory does not exist) whose name ends in
   * `.jar`, and `server.jar` when there is none.
   */
  predicate JarChoice(listing: Option<seq<string>>, jar: string) {
    && (listing.None? ==> jar == DefaultJar)
    && (listing.Some? && (forall i :: 0 <= i < |listing.value| ==> !EndsWith(listing.value[i], JarSuffix)) ==>
      jar == DefaultJar)
    && (listing.Some? && (exists i :: 0 <= i < |listing.value| && EndsWith(listing.value[i], JarSuffix)) ==>
      exists i :: 0 <= i < |listing.value| && jar == listing.value[i] && EndsWith(jar, JarSuffix) &&
        forall j :: 0 <= j < i ==> !EndsWith(listing.value[j], JarSuffix))
  }

  /** The choice is determined by the listing: there is only one jar it allows. */
  lemma JarChoiceUnique(listing: Option<seq<string>>, a: string, b: string)
    requires JarChoice(listing, a) && JarChoice(listing, b)
    ensures a == b
  {
    if listing.Some? && exists i :: 0 <= i < |listing.value| && EndsWith(listing.value[i], JarSuffix) {
      var names := listing.value;
      var i :| 0 <= i < |names| && a == names[i] && EndsWith(a, JarSuffix) &&
        forall j :: 0 <= j < i ==> !EndsWith(names[j], JarSuffix);
      var k :| 0 <= k < |names| && b == names[k] && EndsWith(b, JarSuffix) &&
        forall j :: 0 <= j < k ==> !EndsWith(names[j], JarSuffix);
      assert !(i < k) && !(k < i);
    }
  }

  /** The jar detection of the panel's constructor: the first listed `.jar` entry, or `server.jar`. */
  method DetectJar(listing: Option<seq<string>>) returns (jar: string)
    ensures JarChoice(listing, jar)
  {
    jar := DefaultJar;
    if listing.Some? {
      var names := listing.value;
      for i := 0 to |names|
        invariant jar == DefaultJar
        invariant forall j :: 0 <= j < i ==> !EndsWith(names[j], JarSuffix)
      {
        if EndsWith(names[i], JarSuffix) {
          jar := names[i];
          break;
        }
      }
    }
  }

  // ---------------------------------------------------------------------------
  // The console buffer
  // ---------------------------------------------------------------------------

  /** The text the new queue lines add to the console: each followed by a newline. */
  function Terminated(lines: seq<string>): string {
    if lines == [] then "" else lines[0] + "\n" + Terminated(lines[1..])
  }

  /** One more line goes at the end. */
  lemma {:induction false} TerminatedSnoc(lines: seq<string>, line: string)
    ensures Terminated(lines + [line]) == Terminated(lines) + line + "\n"
  {
    if lines == [] {
      assert [line][1..] == [];
    } else {
      assert (lines + [line])[1..] == lines[1..] + [line];
      TerminatedSnoc(lines[1..], line);
    }
  }

  /** The added text is the lines joined by newlines with a final newline. */
  lemma {:induction false} TerminatedIsJoin(lines: seq<string>)
    ensures Terminated(lines) == Join(lines + [""])
  {
    if lines != [] {
      TerminatedIsJoin(lines[1..]);
      assert (lines + [""])[1..] == lines[1..] + [""];
    }
  }

  /** Newline-free lines are recovered from the added text by splitting it, with the empty piece after the final newline. */
  lemma TerminatedSplit(lines: seq<string>)
    requires forall i :: 0 <= i < |lines| ==> '\n' !in lines[i]
    ensures Split(Terminated(lines)) == lines + [""]
  {
    TerminatedIsJoin(lines);
    SplitJoin(lines + [""]);
  }

  /** The console text with the new queue lines added one by one, each followed by a newline. */
  method AppendLines(text: string, lines: seq<string>) returns (r: string)
    ensures r == text + Terminated(lines)
  {
    r := text;
    for i := 0 to |lines|
      invariant r == text + Terminated(lines[..i])
    {
      TerminatedSnoc(lines[..i], lines[i]);
      assert lines[..i + 1] == lines[..i] + [lines[i]];
      r := r + lines[i] + "\n";
    }
    assert lines[..|lines|] == lines;
  }

  /**
   * The console text kept after an update: unchanged when it has at most 1000
   * newline-separated pieces, otherwise exactly its last 1000 pieces; always
   * a suffix of the text.
   */
  function TrimConsole(text: string): (r: string)
    ensures |Split(text)| <= ConsoleLineLimit ==> r == text
    ensures |Split(text)| > ConsoleLineLimit ==> Split(r) == Split(text)[|Split(text)| - ConsoleLineLimit..]
    ensures |Split(r)| <= ConsoleLineLimit
    ensures IsSuffix(r, text)
  {
    var pieces := Split(text);
    if |pieces| > ConsoleLineLimit then
      var k := |pieces| - ConsoleLineLimit;
      var tail := pieces[k..];
      SplitPieces(text);
      assert forall i :: 0 <= i < |tail| ==> '\n' !in tail[i] by {
        forall i | 0 <= i < |tail| ensures '\n' !in tail[i] {
          assert tail[i] == pieces[k + i];
        }
      }
      SplitJoin(tail);
      JoinTailIsSuffix(pieces, k);
      JoinSplit(text);
      Join(tail)
    else
      assert text[|text| - |text|..] == text;
      text
  }

  // ---------------------------------------------------------------------------
  // The performance history
  // ---------------------------------------------------------------------------

  /** A history list after one append: the oldest entry is dropped once it holds more than 100. */
  function Window<T>(s: seq<T>): (r: seq<T>)
    ensures |s| <= HistoryLimit + 1 ==> |r| <= HistoryLimit
    ensures |r| == if |s| > HistoryLimit then |s| - 1 else |s|
    ensures r == s[|s| - |r|..]
  {
    if |s| > HistoryLimit then s[1..] else s
  }

  /** Strictly increasing sample times. */
  predicate Increasing(xs: seq<nat>) {
    forall i, j :: 0 <= i < j < |xs| ==> xs[i] < xs[j]
  }

  /** The window of an increasing list with a later time appended is increasing, and its times are still earlier than the next tick. */
  lemma WindowIncreasing(xs: seq<nat>, t: nat)
    requires Increasing(xs) && forall i :: 0 <= i < |xs| ==> xs[i] < t
    ensures Increasing(Window(xs + [t]))
    ensures forall i :: 0 <= i < |Window(xs + [t])| ==> Window(xs + [t])[i] < t + 1
  {
    var s := xs + [t];
    var w := Window(s);
    var off := |s| - |w|;
    assert w == s[off..];
    forall k | 0 <= k < |s|
      ensures s[k] <= t && (k < |xs| ==> s[k] == xs[k])
    {
      if k < |xs| {
        assert s[k] == xs[k];
      } else {
        assert s[k] == t;
      }
    }
    forall i, j | 0 <= i < j < |w|
      ensures w[i] < w[j]
    {
      assert w[i] == s[off + i] && w[j] == s[off + j];
      assert s[off + i] == xs[off + i];
    }
    forall i | 0 <= i < |w|
      ensures w[i] < t + 1
    {
      assert w[i] == s[off + i];
    }
  }

  /** The four history lists run in parallel, hold at most 100 samples, and their times are increasing and before `tick`. */
  predicate HistoryOk(cpuX: seq<nat>, cpuY: seq<real>, ramX: seq<nat>, ramY: seq<real>, tick: nat) {
    && |cpuX| == |cpuY| == |ramX| == |ramY| <= HistoryLimit
    && ramX == cpuX
    && Increasing(cpuX)
    && forall i :: 0 <= i < |cpuX| ==> cpuX[i] < tick
  }

  /** A sample taken at `tick` keeps the history well formed for the next tick. */
  lemma SampleKeepsHistory(cpuX: seq<nat>, cpuY: seq<real>, ramX: seq<nat>, ramY: seq<real>, tick: nat, cpu: real, ram: real)
    requires HistoryOk(cpuX, cpuY, ramX, ramY, tick)
    ensures HistoryOk(Window(cpuX + [tick]), Window(cpuY + [cpu]), Window(ramX + [tick]), Window(ramY + [ram]), tick + 1)
  {
    WindowIncreasing(cpuX, tick);
  }

  /** Without a sample the history stays well formed for the next tick. */
  lemma NoSampleKeepsHistory(cpuX: seq<nat>, cpuY: seq<real>, ramX: seq<nat>, ramY: seq<real>, tick: nat)
    requires HistoryOk(cpuX, cpuY, ramX, ramY, tick)
    ensures HistoryOk(cpuX, cpuY, ramX, ramY, tick + 1)
  {
  }

  // ---------------------------------------------------------------------------
  // Property values and their widgets
  // ---------------------------------------------------------------------------

  /** The input a property value is shown in, holding what it shows. */
  datatype Widget = Checkbox(checked: bool) | IntInput(number: int) | TextInput(text: string)

  /** `true` or `false` in any letter case. */
  predicate IsBoolText(v: string) {
    Lower(v) == "true" || Lower(v) == "false"
  }

  /** The widget `refresh_properties` creates for a value: a checkbox, an integer input or a text input. */
  function ClassifyValue(v: string): (w: Widget)
    ensures w.Checkbox? <==> IsBoolText(v)
    ensures w.Checkbox? ==> (w.checked <==> Lower(v) == "true")
    ensures w.IntInput? <==> !IsBoolText(v) && IsDigits(v)
    ensures w.IntInput? ==> w.number == DigitsValue(v)
    ensures w.TextInput? ==> w.text == v
  {
    if IsBoolText(v) then Checkbox(Lower(v) == "true")
    else if IsDigits(v) then IntInput(DigitsValue(v))
    else TextInput(v)
  }

  /** The text `save_properties` stores for what a widget holds: lowercase `true`/`false`, the decimal number, or the text. */
  function SaveValue(w: Widget): (s: string)
    ensures w.Checkbox? ==> s == (if w.checked then "true" else "false")
    ensures w.IntInput? && w.number >= 0 ==> IsDigits(s) && DigitsValue(s) == w.number
    ensures w.TextInput? ==> s == w.text
  {
    match w
    case Checkbox(b) => if b then "true" else "false"
    case IntInput(n) =>
      if n >= 0 then NatToStringRoundTrip(n); IntToString(n)
      else IntToString(n)
    case TextInput(t) => t
  }

  /**
   * A value shown and saved back without edits: a boolean comes back in
   * lowercase, a number without its leading zeros, any other text unchanged.
   */
  lemma ClassifyThenSave(v: string)
    ensures IsBoolText(v) ==> SaveValue(ClassifyValue(v)) == Lower(v)
    ensures !IsBoolText(v) && IsDigits(v) ==>
      IsDigits(SaveValue(ClassifyValue(v))) && DigitsValue(SaveValue(ClassifyValue(v))) == DigitsValue(v)
    ensures !IsBoolText(v) && !IsDigits(v) ==> SaveValue(ClassifyValue(v)) == v
  {
  }

  /** A stored boolean or number shown and saved back gets the widget it had. */
  lemma SaveThenClassify(w: Widget)
    requires w.Checkbox? || (w.IntInput? && w.number >= 0)
    ensures ClassifyValue(SaveValue(w)) == w
  {
    if w.Checkbox? {
      assert Lower("true") == "true";
      assert Lower("false") == "false";
    } else {
      var s := SaveValue(w);
      assert IsDigit(s[0]);
      assert Lower(s)[0] == s[0];
      assert "true"[0] == 't' && "false"[0] == 'f';
    }
  }

  /** The edits collected from the first items of `props`, as the loop of `save_properties` puts them. */
  function Edits(props: Props, widgets: map<string, Widget>): (edits: Props)
    ensures UniqueKeys(edits)
  {
    if props == [] then []
    else
      var e := Edits(props[..|props| - 1], widgets);
      var key := props[|props| - 1].key;
      if key in widgets then Put(e, key, SaveValue(widgets[key])) else e
  }

  /** A key is edited exactly when it was loaded and its widget exists; its edit is the text that widget holds. */
  lemma {:induction false} EditsGet(props: Props, widgets: map<string, Widget>, k: string)
    ensures Get(Edits(props, widgets), k) == if Get(props, k).Some? && k in widgets then Some(SaveValue(widgets[k])) else None
  {
    if props != [] {
      var front, last := props[..|props| - 1], props[|props| - 1];
      EditsGet(front, widgets, k);
      assert props == front + [last];
      GetSnoc(front, last, k);
    }
  }

  /**
   * The dict `save_properties` hands to `save_config`: for every loaded key,
   * in order, whose widget exists, the text its widget holds.
   */
  method CollectEdits(props: Props, widgets: map<string, Widget>) returns (edits: Props)
    ensures edits == Edits(props, widgets)
    ensures UniqueKeys(edits)
    ensures forall k :: Get(edits, k) == if Get(props, k).Some? && k in widgets then Some(SaveValue(widgets[k])) else None
  {
    edits := [];
    for i := 0 to |props|
      invariant edits == Edits(props[..i], widgets)
    {
      assert props[..i + 1][..i] == props[..i];
      var key := props[i].key;
      if key in widgets {
        edits := Put(edits, key, SaveValue(widgets[key]));
      }
    }
    assert props[..|props|] == props;
    forall k ensures Get(edits, k) == if Get(props, k).Some? && k in widgets then Some(SaveValue(widgets[k])) else None {
      EditsGet(props, widgets, k);
    }
  }

  // ---------------------------------------------------------------------------
  // Ban-list labels
  // ---------------------------------------------------------------------------

  const LabelOpen := " ("

  /** The reason a ban record shows: its `reason` field, or `No reason` when it has none. */
  function ShownReason(e: Entry): string {
    match e.ban
    case Some(b) => b.reason.GetOr("No reason")
    case None => "No reason"
  }

  /** The ban-list label `name (reason)`. */
  function BanLabel(name: string, reason: string): string {
    name + LabelOpen + reason + ")"
  }

  /** The labels of the ban list; a record without a name has no label. */
  function BanLabels(bans: seq<Entry>): (labels: seq<string>)
    requires forall i :: 0 <= i < |bans| ==> bans[i].name.Some?
    ensures |labels| == |bans|
    ensures forall i :: 0 <= i < |bans| ==> labels[i] == BanLabel(bans[i].name.value, ShownReason(bans[i]))
  {
    seq(|bans|, i requires 0 <= i < |bans| => BanLabel(bans[i].name.value, ShownReason(bans[i])))
  }

  /** The name `unban_player` takes from a selected label: the text before the first ` (`, or all of it. */
  function LabelName(shown: string): (name: string)
    ensures IsPrefix(name, shown)
    ensures forall j: nat :: j + |LabelOpen| <= |name| ==> !OccursAt(name, LabelOpen, j)
  {
    var i := FindSub(shown, LabelOpen);
    var name := shown[..i];
    forall j: nat | j + |LabelOpen| <= |name| ensures !OccursAt(name, LabelOpen, j) {
      assert !OccursAt(shown, LabelOpen, j);
      assert name[j..j + |LabelOpen|] == shown[j..j + |LabelOpen|];
    }
    name
  }

  predicate IsPrefix(a: string, b: string) {
    |a| <= |b| && b[..|a|] == a
  }

  /** ` (` does not occur in `name`. */
  predicate FreeOfLabelOpen(name: string) {
    forall j: nat :: j + |LabelOpen| <= |name| ==> !OccursAt(name, LabelOpen, j)
  }

  /** The name is recovered from its label exactly when it does not itself contain ` (`. */
  lemma LabelRoundTrip(name: string, reason: string)
    ensures LabelName(BanLabel(name, reason)) == name <==> FreeOfLabelOpen(name)
  {
    var shown := BanLabel(name, reason);
    var i := FindSub(shown, LabelOpen);
    assert shown[..|name|] == name;
    assert OccursAt(shown, LabelOpen, |name|);
    if FreeOfLabelOpen(name) {
      forall j: nat | j < |name| ensures !OccursAt(shown, LabelOpen, j) {
        if j + |LabelOpen| <= |name| {
          assert !OccursAt(name, LabelOpen, j);
          assert shown[j..j + |LabelOpen|] == name[j..j + |LabelOpen|];
        } else {
          assert shown[j + 1] == ' ' && LabelOpen[1] == '(';
          assert |shown| >= j + |LabelOpen| ==> shown[j..j + |LabelOpen|][1] == shown[j + 1];
        }
      }
      assert i == |name|;
    } else {
      var j: nat :| j + |LabelOpen| <= |name| && OccursAt(name, LabelOpen, j);
      assert shown[j..j + |LabelOpen|] == name[j..j + |LabelOpen|];
      assert OccursAt(shown, LabelOpen, j);
      assert i <= j;
    }
  }

  /** Unbanning from a label that was shown for a record whose name is free of ` (` unbans that player. */
  lemma UnbanByLabel(bans: seq<Entry>, k: nat)
    requires k < |bans| && bans[k].name.Some? && FreeOfLabelOpen(bans[k].name.value)
    ensures UnbanPlayer(bans, LabelName(BanLabel(bans[k].name.value, ShownReason(bans[k])))).ok
  {
    LabelRoundTrip(bans[k].name.value, ShownReason(bans[k]));
    assert NameMatches(bans[k], bans[k].name.value);
  }

  // ---------------------------------------------------------------------------
  // The update loop
  // ---------------------------------------------------------------------------

  class App {
    const server: ServerManager
    /** The text of the console widget. */
    var console: string
    var tickCount: nat
    var cpuX: seq<nat>
    var cpuY: seq<real>
    var ramX: seq<nat>
    var ramY: seq<real>
    /** The status text and which of the start, stop and kill buttons are shown. */
    var statusText: string
    var startShown: bool
    var stopShown: bool
    var killShown: bool

    /** The history is well formed for the coming tick. */
    predicate HistoryValid()
      reads this
    {
      HistoryOk(cpuX, cpuY, ramX, ramY, tickCount)
    }

    predicate Valid()
      reads this, server
    {
      server.Valid() && HistoryValid()
    }

    /** The panel as it starts: the detected jar, an empty console and history, the status `Offline` and the start button alone shown. */
    constructor (listing: Option<seq<string>>)
      ensures Valid() && fresh(server)
      ensures server.serverDir == ServerDir && server.javaPath == "java"
      ensures JarChoice(listing, server.jarName)
      ensures !server.isRunning && server.process.None? && server.output == []
      ensures console == "" && tickCount == 0 && cpuX == [] && cpuY == [] && ramX == [] && ramY == []
      ensures statusText == "Offline" && startShown && !stopShown && !killShown
    {
      var jar := DetectJar(listing);
      server := new ServerManager(ServerDir, jar, "java");
      console := "";
      tickCount := 0;
      cpuX, cpuY, ramX, ramY := [], [], [], [];
      statusText := "Offline";
      startShown, stopShown, killShown := true, false, false;
    }

    /**
     * The history part of a tick: on every tenth tick the process's CPU and
     * RAM are appended to the four lists, dropping their oldest entries past
     * 100; then the tick is counted.
     */
    method SampleAndCount(sample: Option<Usage>)
      requires HistoryValid()
      modifies this
      ensures HistoryValid()
      ensures tickCount == old(tickCount) + 1
      ensures old(tickCount) % SampleEvery != 0 ==>
        cpuX == old(cpuX) && cpuY == old(cpuY) && ramX == old(ramX) && ramY == old(ramY)
      ensures old(tickCount) % SampleEvery == 0 ==>
        var stats := server.PerformanceStats(sample);
        && cpuX == Window(old(cpuX) + [old(tickCount)])
        && ramX == Window(old(ramX) + [old(tickCount)])
        && cpuY == Window(old(cpuY) + [stats.cpu])
        && ramY == Window(old(ramY) + [stats.ram])
      ensures console == old(console) && statusText == old(statusText)
      ensures startShown == old(startShown) && stopShown == old(stopShown) && killShown == old(killShown)
    {
      if tickCount % SampleEvery == 0 {
        var stats := server.PerformanceStats(sample);
        SampleKeepsHistory(cpuX, cpuY, ramX, ramY, tickCount, stats.cpu, stats.ram);
        cpuX := Window(cpuX + [tickCount]);
        ramX := Window(ramX + [tickCount]);
        cpuY := Window(cpuY + [stats.cpu]);
        ramY := Window(ramY + [stats.ram]);
      } else {
        NoSampleKeepsHistory(cpuX, cpuY, ramX, ramY, tickCount);
      }
      tickCount := tickCount + 1;
    }

    /** The status part of a tick: the status text, with the start button shown exactly when offline and stop and kill exactly when online. */
    method ShowStatus()
      modifies this
      ensures statusText == (if server.isRunning then "Online" else "Offline")
      ensures startShown <==> statusText != "Online"
      ensures stopShown <==> statusText == "Online"
      ensures killShown <==> statusText == "Online"
      ensures console == old(console) && tickCount == old(tickCount)
      ensures cpuX == old(cpuX) && cpuY == old(cpuY) && ramX == old(ramX) && ramY == old(ramY)
    {
      var status := server.GetStatus();
      statusText := status;
      if status == "Online" {
        startShown, stopShown, killShown := false, true, true;
      } else {
        startShown, stopShown, killShown := true, false, false;
      }
    }

    /** The console part of a tick: the queued lines, if any, are added to the console, which is then trimmed. */
    method RefreshConsole()
      requires server.Valid()
      modifies this, server
      ensures server.Valid()
      ensures server.output == [] && server.isRunning == old(server.isRunning)
      ensures server.process == old(server.process) && server.stdin == old(server.stdin)
      ensures old(server.output) == [] ==> console == old(console)
      ensures old(server.output) != [] ==> console == TrimConsole(old(console) + Terminated(old(server.output)))
      ensures tickCount == old(tickCount) && statusText == old(statusText)
      ensures startShown == old(startShown) && stopShown == old(stopShown) && killShown == old(killShown)
      ensures cpuX == old(cpuX) && cpuY == old(cpuY) && ramX == old(ramX) && ramY == old(ramY)
    {
      var newLines := server.GetConsoleOutput();
      if newLines != [] {
        var current := AppendLines(console, newLines);
        console := TrimConsole(current);
      }
    }

    /**
     * One `update_loop` tick: show the status and the matching buttons, move
     * the queued lines into the console and trim it, take a sample every
     * tenth tick, and count the tick.
     */
    method UpdateLoop(sample: Option<Usage>)
      requires Valid()
      modifies this, server
      ensures Valid()
      ensures statusText == (if old(server.isRunning) then "Online" else "Offline")
      ensures startShown <==> statusText != "Online"
      ensures stopShown <==> statusText == "Online"
      ensures killShown <==> statusText == "Online"
      ensures server.output == [] && server.isRunning == old(server.isRunning)
      ensures server.process == old(server.process) && server.stdin == old(server.stdin)
      ensures old(server.output) == [] ==> console == old(console)
      ensures old(server.output) != [] ==> console == TrimConsole(old(console) + Terminated(old(server.output)))
      ensures tickCount == old(tickCount) + 1
      ensures old(tickCount) % SampleEvery != 0 ==>
        cpuX == old(cpuX) && cpuY == old(cpuY) && ramX == old(ramX) && ramY == old(ramY)
      ensures old(tickCount) % SampleEvery == 0 ==>
        var stats := old(server.PerformanceStats(sample));
        && cpuX == Window(old(cpuX) + [old(tickCount)])
        && ramX == Window(old(ramX) + [old(tickCount)])
        && cpuY == Window(old(cpuY) + [stats.cpu])
        && ramY == Window(old(ramY) + [stats.ram])
    {
      ShowStatus();
      RefreshConsole();
      assert server.PerformanceStats(sample) == old(server.PerformanceStats(sample));
      SampleAndCount(sample);
    }
  }
}
