/**
 * A config file replaced by write, sync and rename, under failures and crashes.
 */
module AtomicReplace {
  import opened OrderedDict

  /** File content, and whether it has reached the disk. */
  datatype Inode = Inode(data: string, synced: bool)

  /** Where the command is. */
  datatype Phase =
    | Ready
    | Opening                  // about to create the temporary file
    | Writing                  // the temporary file holds a part of the new text
    | Flushed                  // it holds all of it
    | Synced                   // and all of it is on disk
    | Failing                  // an error was caught, the temporary file is to be removed
    | RepliedError
    | RepliedDone

  // names: what the config name has pointed to, oldest first; the last is what a
  // reader sees now, and the disk may still hold any of them as the directory
  // itself is not synced. was, text: the text read and the text to be written.
  datatype State = State(names: seq<Inode>, tmp: Option<Inode>, phase: Phase, was: string, text: string)

  datatype Event =
    | Begin(text: string)
    | Open(ok: bool)
    | WritePart(upTo: nat)
    | WriteFails
    | Flush(ok: bool)
    | Sync(ok: bool)
    | Rename(ok: bool)
    | RemoveTmp(ok: bool)
    | Crash(point: nat, torn: string, tmpLeft: Option<string>)

  predicate Running(p: Phase) {
    p != Ready && p != RepliedError && p != RepliedDone
  }

  predicate Enabled(s: State, e: Event) {
    s.names != [] &&
    match e
    case Begin(_) => !Running(s.phase)
    case Open(_) => s.phase == Opening
    case WritePart(n) => s.phase == Writing && s.tmp.Some? && |s.tmp.value.data| <= n <= |s.text|
    case WriteFails => s.phase == Writing
    case Flush(_) => s.phase == Writing
    case Sync(_) => s.phase == Flushed && s.tmp.Some?
    case Rename(_) => s.phase == Synced && s.tmp.Some?
    case RemoveTmp(_) => s.phase == Failing
    case Crash(point, _, _) => point < |s.names|
  }

  /** What a crash leaves of a file: all of it when it was synced, anything at all otherwise. */
  function Survives(i: Inode, torn: string): Inode {
    if i.synced then i else Inode(torn, true)
  }

  function Last(names: seq<Inode>): Inode
    requires names != []
  {
    names[|names| - 1]
  }

  function Visible(s: State): string
    requires s.names != []
  {
    Last(s.names).data
  }

  function Step(s: State, e: Event): State
    requires Enabled(s, e)
  {
    match e
    case Begin(text) => s.(phase := Opening, was := Visible(s), text := text)
    case Open(ok) => if ok then s.(tmp := Some(Inode("", false)), phase := Writing) else s.(phase := Failing)
    case WritePart(n) => s.(tmp := Some(Inode(s.text[..n], false)))
    case WriteFails => s.(phase := Failing)
    case Flush(ok) => if ok then s.(tmp := Some(Inode(s.text, false)), phase := Flushed) else s.(phase := Failing)
    case Sync(ok) => if ok then s.(tmp := Some(s.tmp.value.(synced := true)), phase := Synced) else s.(phase := Failing)
    case Rename(ok) =>
      if ok then s.(names := s.names + [s.tmp.value], tmp := None, phase := RepliedDone) else s.(phase := Failing)
    case RemoveTmp(ok) => s.(tmp := if ok then None else s.tmp, phase := RepliedError)
    case Crash(point, torn, tmpLeft) =>
      State([Survives(s.names[point], torn)],
            if tmpLeft.Some? then Some(Inode(tmpLeft.value, true)) else None, Ready, s.was, s.text)
  }

  predicate Possible(s: State, events: seq<Event>)
    decreases |events|
  {
    events == [] || (Enabled(s, events[0]) && Possible(Step(s, events[0]), events[1..]))
  }

  function After(s: State, events: seq<Event>): State
    requires Possible(s, events)
    decreases |events|
  {
    if events == [] then s else After(Step(s, events[0]), events[1..])
  }

  /** A file on disk, no command running, perhaps an old temporary file lying about. */
  function Initially(text: string, tmp: Option<Inode>): State {
    State([Inode(text, true)], tmp, Ready, text, text)
  }

  /** The first text and every text a command was given. */
  function Texts(first: string, events: seq<Event>): set<string> {
    if events == [] then {first}
    else Texts(first, events[1..]) + (if events[0].Begin? then {events[0].text} else {})
  }

  // ---------------------------------------------------------------- invariant

  ghost predicate Invariant(s: State, whole: set<string>) {
    && s.names != []
    && (forall i :: 0 <= i < |s.names| ==> s.names[i].synced && s.names[i].data in whole)
    && (Running(s.phase) || s.phase == RepliedDone ==> s.text in whole)
    && match s.phase
       case Ready => true
       case Opening => Visible(s) == s.was
       case Writing => Visible(s) == s.was
       case Flushed => Visible(s) == s.was && s.tmp.Some? && s.tmp.value.data == s.text
       case Synced => Visible(s) == s.was && s.tmp == Some(Inode(s.text, true))
       case Failing => Visible(s) == s.was
       case RepliedError => Visible(s) == s.was
       case RepliedDone => Visible(s) == s.text
  }

  lemma StepKeeps(s: State, whole: set<string>, e: Event)
    requires Invariant(s, whole) && Enabled(s, e)
    requires e.Begin? ==> e.text in whole
    ensures Invariant(Step(s, e), whole)
  {
  }

  lemma {:induction false} TextsHold(first: string, events: seq<Event>)
    ensures first in Texts(first, events)
    ensures forall i :: 0 <= i < |events| && events[i].Begin? ==> events[i].text in Texts(first, events)
  {
    if events != [] {
      TextsHold(first, events[1..]);
      forall i | 0 <= i < |events| && events[i].Begin? ensures events[i].text in Texts(first, events) {
        assert i > 0 ==> events[i] == events[1..][i - 1];
      }
    }
  }

  lemma {:induction false} RunKeeps(s: State, whole: set<string>, events: seq<Event>)
    requires Invariant(s, whole) && Possible(s, events)
    requires forall i :: 0 <= i < |events| && events[i].Begin? ==> events[i].text in whole
    ensures Invariant(After(s, events), whole)
    decreases |events|
  {
    if events != [] {
      StepKeeps(s, whole, events[0]);
      var more := events[1..];
      assert forall i :: 0 <= i < |more| ==> more[i] == events[i + 1];
      RunKeeps(Step(s, events[0]), whole, more);
    }
  }

  /**
   * Over any run of commands, failures and crashes the config file always holds
   * one whole text: the first one or one a command was given.
   */
  lemma AlwaysWhole(first: string, tmp: Option<Inode>, events: seq<Event>)
    requires Possible(Initially(first, tmp), events)
    ensures var s := After(Initially(first, tmp), events);
      s.names != [] && Visible(s) in Texts(first, events)
  {
    TextsHold(first, events);
    RunKeeps(Initially(first, tmp), Texts(first, events), events);
  }

  /** The events after which a command has been given its text. */
  ghost predicate OneCommand(events: seq<Event>) {
    forall i :: 0 <= i < |events| ==> !events[i].Begin?
  }

  /**
   * One edit of a file that is on disk: at every point, crashes included, the
   * file holds the whole old or the whole new text. Without a crash an error
   * reply means the old text and a success reply the new one.
   */
  lemma OneEdit(before: string, edited: string, tmp: Option<Inode>, events: seq<Event>)
    requires OneCommand(events) && Possible(Step(Initially(before, tmp), Begin(edited)), events)
    ensures var s := After(Step(Initially(before, tmp), Begin(edited)), events);
      && s.names != [] && (Visible(s) == before || Visible(s) == edited)
      && (s.phase == RepliedError ==> Visible(s) == before)
      && (s.phase == RepliedDone ==> Visible(s) == edited)
  {
    var s0 := Step(Initially(before, tmp), Begin(edited));
    RunKeeps(s0, {before, edited}, events);
    SameCommand(s0, events);
  }

  lemma {:induction false} SameCommand(s: State, events: seq<Event>)
    requires OneCommand(events) && Possible(s, events)
    ensures After(s, events).was == s.was && After(s, events).text == s.text
    decreases |events|
  {
    if events != [] {
      assert !events[0].Begin?;
      var more := events[1..];
      assert forall i :: 0 <= i < |more| ==> more[i] == events[i + 1];
      SameCommand(Step(s, events[0]), more);
    }
  }

  // ------------------------------------------------ replies and temporary files

  /** A step of the command that raises. */
  predicate Fails(e: Event) {
    e == Open(false) || e == WriteFails || e == Flush(false) || e == Sync(false) || e == Rename(false)
  }

  ghost predicate SomeFails(events: seq<Event>) {
    exists i :: 0 <= i < |events| && Fails(events[i])
  }

  ghost predicate Uninterrupted(events: seq<Event>) {
    forall i :: 0 <= i < |events| ==> !events[i].Begin? && !events[i].Crash?
  }

  predicate Erring(p: Phase) {
    p == Failing || p == RepliedError
  }

  /** What the events so far say of the reply and of the temporary file. */
  ghost predicate Says(s: State, events: seq<Event>, t: State) {
    && (Erring(t.phase) <==> Erring(s.phase) || SomeFails(events))
    && (t.phase == RepliedDone <==> s.phase == RepliedDone || Rename(true) in events)
    && (events != [] && t.phase == RepliedDone ==> t.tmp == None)
    && (events != [] && t.phase == RepliedError ==>
         events[|events| - 1] == RemoveTmp(true) || events[|events| - 1] == RemoveTmp(false))
    && (events != [] && t.phase == RepliedError && events[|events| - 1] == RemoveTmp(true) ==> t.tmp == None)
  }

  lemma SaysNext(s: State, e: Event, events: seq<Event>, t: State)
    requires s.phase != Ready && Enabled(s, e) && !e.Begin? && !e.Crash?
    requires Says(Step(s, e), events, t) && (events == [] ==> t == Step(s, e))
    ensures Says(s, [e] + events, t)
  {
    var all := [e] + events;
    assert SomeFails(all) <==> Fails(e) || SomeFails(events) by {
      assert all[0] == e && forall i :: 0 <= i < |events| ==> all[i + 1] == events[i];
    }
    hide SomeFails;
    assert Erring(Step(s, e).phase) <==> Erring(s.phase) || Fails(e);
    assert Step(s, e).phase == RepliedDone <==> e == Rename(true);
  }

  lemma {:induction false} RunSays(s: State, events: seq<Event>)
    requires s.phase != Ready && Uninterrupted(events) && Possible(s, events)
    ensures Says(s, events, After(s, events))
    decreases |events|
  {
    if events != [] {
      var e, more := events[0], events[1..];
      assert !e.Begin? && !e.Crash?;
      assert forall i :: 0 <= i < |more| ==> more[i] == events[i + 1];
      assert events == [e] + more;
      RunSays(Step(s, e), more);
      SaysNext(s, e, more, After(s, events));
    }
  }

  /**
   * Without a crash: the command replies success exactly when its rename was done,
   * is on its way to an error reply exactly when some step failed, and leaves no
   * temporary file behind unless the removal itself failed.
   */
  lemma ReplySays(before: string, edited: string, tmp: Option<Inode>, events: seq<Event>)
    requires Uninterrupted(events) && Possible(Step(Initially(before, tmp), Begin(edited)), events)
    ensures var s := After(Step(Initially(before, tmp), Begin(edited)), events);
      && (s.phase == RepliedDone <==> Rename(true) in events)
      && (s.phase == Failing || s.phase == RepliedError <==> SomeFails(events))
      && (s.phase == RepliedDone ==> s.tmp == None)
      && (s.phase == RepliedError && s.tmp != None ==> events[|events| - 1] == RemoveTmp(false))
  {
    var s0 := Step(Initially(before, tmp), Begin(edited));
    assert s0.phase == Opening;
    RunSays(s0, events);
    hide Step, Possible, SomeFails;
  }

  /** Success is not durable by itself: after the reply a crash may still bring the old text back. */
  lemma CrashAfterSuccess(before: string, edited: string)
    ensures var events := [Begin(edited), Open(true), Flush(true), Sync(true), Rename(true), Crash(0, "", None)];
      Possible(Initially(before, None), events)
      && var s := After(Initially(before, None), events); s.names != [] && Visible(s) == before
  {
    var s0 := Initially(before, None);
    var e1, e2, e3, e4, e5, e6 := Begin(edited), Open(true), Flush(true), Sync(true), Rename(true), Crash(0, "", None);
    var s1 := Step(s0, e1);
    var s2 := Step(s1, e2);
    var s3 := Step(s2, e3);
    var s4 := Step(s3, e4);
    var s5 := Step(s4, e5);
    var s6 := Step(s5, e6);
    hide Step, Enabled;
    Prepend(s5, e6, []);
    Prepend(s4, e5, [e6]);
    Prepend(s3, e4, [e5, e6]);
    Prepend(s2, e3, [e4, e5, e6]);
    Prepend(s1, e2, [e3, e4, e5, e6]);
    Prepend(s0, e1, [e2, e3, e4, e5, e6]);
    assert [e1] + [e2, e3, e4, e5, e6] == [e1, e2, e3, e4, e5, e6];
  }

  /** Within one command: what the names and the temporary file hold at each point. */
  ghost predicate OneCommandState(s: State, before: string, edited: string) {
    && s.text == edited
    && match s.phase
       case Ready => true
       case RepliedDone => s.names == [Inode(before, true), Inode(edited, true)]
       case Synced => s.names == [Inode(before, true)] && s.tmp == Some(Inode(edited, true))
       case Flushed => s.names == [Inode(before, true)] && s.tmp == Some(Inode(edited, false))
       case _ => s.names == [Inode(before, true)]
  }

  lemma {:induction false} OneCommandKeeps(s: State, events: seq<Event>, before: string, edited: string)
    requires OneCommandState(s, before, edited) && OneCommand(events) && Possible(s, events)
    ensures OneCommandState(After(s, events), before, edited)
    decreases |events|
  {
    if events != [] {
      assert !events[0].Begin?;
      var more := events[1..];
      assert forall i :: 0 <= i < |more| ==> more[i] == events[i + 1];
      OneCommandKeeps(Step(s, events[0]), more, before, edited);
    }
  }

  /**
   * The sync is what this rests on: renamed before it, the file of any edit may
   * hold anything after a crash.
   */
  lemma UnsyncedWouldTear(before: string, edited: string, tmp: Option<Inode>, events: seq<Event>, torn: string)
    requires OneCommand(events) && Possible(Step(Initially(before, tmp), Begin(edited)), events)
    requires After(Step(Initially(before, tmp), Begin(edited)), events).phase == Flushed
    ensures var s := After(Step(Initially(before, tmp), Begin(edited)), events);
      && s.tmp.Some?
      && var renamed := s.(names := s.names + [s.tmp.value], tmp := None);
      && var crash := Crash(|s.names|, torn, None);
      Enabled(renamed, crash) && Visible(Step(renamed, crash)) == torn
  {
    OneCommandKeeps(Step(Initially(before, tmp), Begin(edited)), events, before, edited);
  }

  /**
   * After the success reply of any edit a crash leaves the old text or the new one,
   * depending only on which name is on disk, and both can happen.
   */
  lemma CrashOutcomes(before: string, edited: string, tmp: Option<Inode>, events: seq<Event>, crash: Event)
    requires OneCommand(events) && Possible(Step(Initially(before, tmp), Begin(edited)), events)
    requires After(Step(Initially(before, tmp), Begin(edited)), events).phase == RepliedDone && crash.Crash?
    ensures var s := After(Step(Initially(before, tmp), Begin(edited)), events);
      && (Enabled(s, crash) <==> crash.point < 2)
      && (Enabled(s, crash) ==> Step(s, crash).names != [] && Visible(Step(s, crash)) == if crash.point == 0 then before else edited)
  {
    OneCommandKeeps(Step(Initially(before, tmp), Begin(edited)), events, before, edited);
  }

  lemma Prepend(s: State, e: Event, more: seq<Event>)
    requires Enabled(s, e) && Possible(Step(s, e), more)
    ensures Possible(s, [e] + more) && After(s, [e] + more) == After(Step(s, e), more)
  {
    assert ([e] + more)[0] == e && ([e] + more)[1..] == more;
  }
}
