/**
 What the search by path reports beside the address: the properties that stood
 at the target before the register, taken from the tree alone
 (src/mm/dtb.rs, find_reg_by_path).
*/
module PathSettings {
  import opened Machine
  import opened Wrappers
  import opened Fdt
  import opened BusRanges
  import opened DtbPath

  datatype Setting = Setting(name: Bytes, value: Bytes)

  function Here(strings: Bytes, target: Bytes, inNode: bool, names: seq<Bytes>, nameoff: u32, value: Bytes):
    seq<Setting>
  {
    if inNode && Joined(names) == target then [Setting(GetString(strings, nameoff), value)] else []
  }

  /** The properties of all nodes with the target as their full path, in document order. */
  function AtTarget(t: Items, strings: Bytes, target: Bytes, inNode: bool, names: seq<Bytes>): seq<Setting> {
    match t
    case Done => []
    case Nop(rest) => AtTarget(rest, strings, target, inNode, names)
    case Prop(nameoff, value, rest) =>
      Here(strings, target, inNode, names, nameoff, value) + AtTarget(rest, strings, target, inNode, names)
    case Child(name, body, rest) =>
      AtTarget(body, strings, target, true, names + [name]) + AtTarget(rest, strings, target, inNode, names)
  }

  /**
   Some reg property with this value stands at the target, and those that
   stood there before it are `before`; `done` are those before the items t.
  */
  predicate StandsAfter(t: Items, strings: Bytes, target: Bytes, inNode: bool, names: seq<Bytes>, done: seq<Setting>,
        value: Bytes, before: seq<Setting>)
  {
    match t
    case Done => false
    case Nop(rest) => StandsAfter(rest, strings, target, inNode, names, done, value, before)
    case Prop(nameoff, v, rest) =>
      || (Here(strings, target, inNode, names, nameoff, v) == [Setting(Ascii("reg"), value)] && before == done)
      || StandsAfter(rest, strings, target, inNode, names,
           done + Here(strings, target, inNode, names, nameoff, v), value, before)
    case Child(name, body, rest) =>
      || StandsAfter(body, strings, target, true, names + [name], done, value, before)
      || StandsAfter(rest, strings, target, inNode, names,
           done + AtTarget(body, strings, target, true, names + [name]), value, before)
  }

  /** The word of the last property of this name that holds one. */
  function LastWord(before: seq<Setting>, name: Bytes): Option<u32> {
    if before == [] then None
    else
      var last := before[|before| - 1];
      if last.name == name && |last.value| >= 4 then Some(ReadBe32(last.value, 0))
      else LastWord(before[..|before| - 1], name)
  }

  function Default(word: Option<u32>, value: u32): u32 { if word.Some? then word.value else value }

  predicate Named(before: seq<Setting>, name: Bytes) {
    exists k :: 0 <= k < |before| && before[k].name == name
  }

  /** The settings that these properties make, in the source's terms: 0, 4, none and false without them. */
  predicate MadeBy(settings: Settings, before: seq<Setting>) {
    && settings.regShift == Default(LastWord(before, Ascii("reg-shift")), 0)
    && settings.regIoWidth == Default(LastWord(before, Ascii("reg-io-width")), 4)
    && settings.clock == LastWord(before, Ascii("clock-frequency"))
    && (settings.skipInit <==> Named(before, Ascii("skip-init")))
  }

  lemma {:induction false} SnocWord(before: seq<Setting>, s: Setting, name: Bytes)
    ensures LastWord(before + [s], name) ==
      if s.name == name && |s.value| >= 4 then Some(ReadBe32(s.value, 0)) else LastWord(before, name)
    ensures Named(before + [s], name) <==> Named(before, name) || s.name == name
  {
    var all := before + [s];
    assert all[..|before|] == before;
    assert all[|before|] == s;
    if k :| 0 <= k < |before| && before[k].name == name {
      assert all[k].name == name;
    }
  }

  lemma {:induction false} NamesDiffer()
    ensures Ascii("reg-shift") != Ascii("reg-io-width") && Ascii("reg-shift") != Ascii("clock-frequency")
    ensures Ascii("reg-shift") != Ascii("skip-init") && Ascii("reg-io-width") != Ascii("clock-frequency")
    ensures Ascii("reg-io-width") != Ascii("skip-init") && Ascii("clock-frequency") != Ascii("skip-init")
  {
    assert |Ascii("reg-shift")| == 9 && |Ascii("skip-init")| == 9;
    assert Ascii("reg-shift")[0] == 114 && Ascii("skip-init")[0] == 115;
    assert |Ascii("reg-io-width")| == 12 && |Ascii("clock-frequency")| == 15;
  }

  lemma {:induction false} TargetStep(settings: Settings, before: seq<Setting>, name: Bytes, value: Bytes)
    requires MadeBy(settings, before)
    ensures MadeBy(OnTarget(settings, name, value), before + [Setting(name, value)])
  {
    NamesDiffer();
    SnocWord(before, Setting(name, value), Ascii("reg-shift"));
    SnocWord(before, Setting(name, value), Ascii("reg-io-width"));
    SnocWord(before, Setting(name, value), Ascii("clock-frequency"));
    SnocWord(before, Setting(name, value), Ascii("skip-init"));
  }

  predicate Speaks(name: Bytes) {
    name == Ascii("reg-shift") || name == Ascii("reg-io-width") || name == Ascii("clock-frequency") ||
    name == Ascii("skip-init")
  }

  lemma {:induction false} OthersAreSilent(settings: Settings, before: seq<Setting>, name: Bytes, value: Bytes)
    requires MadeBy(settings, before) && !Speaks(name)
    ensures MadeBy(settings, before + [Setting(name, value)])
  {
    SnocWord(before, Setting(name, value), Ascii("reg-shift"));
    SnocWord(before, Setting(name, value), Ascii("reg-io-width"));
    SnocWord(before, Setting(name, value), Ascii("clock-frequency"));
    SnocWord(before, Setting(name, value), Ascii("skip-init"));
  }

  lemma {:induction false} NodeNamesAreSilent(name: Bytes)
    requires IsNodeName(name) || name == Ascii("reg")
    ensures !Speaks(name)
  {
    assert |Ascii("#address-cells")| == 14 && |Ascii("#size-cells")| == 11 && |Ascii("ranges")| == 6;
    assert |Ascii("reg")| == 3;
    assert |Ascii("reg-shift")| == 9 && |Ascii("skip-init")| == 9;
    assert |Ascii("reg-io-width")| == 12 && |Ascii("clock-frequency")| == 15;
  }

  /** One property that does not end the search. */
  lemma {:induction false} PropStep(open: seq<RegNode>, strings: Bytes, target: Bytes, names: seq<Bytes>,
        settings: Settings, done: seq<Setting>, nameoff: u32, value: Bytes)
    requires MadeBy(settings, done)
    requires OnProp(open, Joined(names), target, settings, GetString(strings, nameoff), value).Next?
    ensures MadeBy(OnProp(open, Joined(names), target, settings, GetString(strings, nameoff), value).settings,
      done + Here(strings, target, true, names, nameoff, value))
  {
    var name := GetString(strings, nameoff);
    if Joined(names) == target {
      if IsNodeName(name) || name == Ascii("reg") {
        NodeNamesAreSilent(name);
        OthersAreSilent(settings, done, name, value);
      } else {
        TargetStep(settings, done, name, value);
      }
    } else {
      assert done + [] == done;
    }
  }

  /** Items that are walked to their end leave the settings that the target's properties in them make. */
  lemma {:induction false} WalkCollects(t: Items, strings: Bytes, target: Bytes, open: seq<RegNode>,
        names: seq<Bytes>, settings: Settings, done: seq<Setting>)
    requires MadeBy(settings, done) && FindWalk(t, strings, target, open, names, settings).Visited?
    ensures MadeBy(FindWalk(t, strings, target, open, names, settings).settings,
      done + AtTarget(t, strings, target, open != [], names))
    decreases t
  {
    match t
    case Done =>
      assert done + [] == done;
    case Nop(rest) => WalkCollects(rest, strings, target, open, names, settings, done);
    case Prop(nameoff, value, rest) =>
      var here := Here(strings, target, open != [], names, nameoff, value);
      var tail := AtTarget(rest, strings, target, open != [], names);
      assert done + (here + tail) == (done + here) + tail;
      if open == [] {
        assert done + here == done;
        WalkCollects(rest, strings, target, open, names, settings, done);
      } else {
        PropStep(open, strings, target, names, settings, done, nameoff, value);
        var next := OnProp(open, Joined(names), target, settings, GetString(strings, nameoff), value);
        WalkCollects(rest, strings, target, WithTop(open, next.node), names, next.settings, done + here);
      }
    case Child(name, body, rest) =>
      ChildCollects(name, body, rest, strings, target, open, names, settings, done);
  }

  lemma {:induction false} ChildCollects(name: Bytes, body: Items, rest: Items, strings: Bytes, target: Bytes,
        open: seq<RegNode>, names: seq<Bytes>, settings: Settings, done: seq<Setting>)
    requires MadeBy(settings, done)
    requires FindWalk(Child(name, body, rest), strings, target, open, names, settings).Visited?
    ensures MadeBy(FindWalk(Child(name, body, rest), strings, target, open, names, settings).settings,
      done + AtTarget(Child(name, body, rest), strings, target, open != [], names))
    decreases Child(name, body, rest), 0
  {
    var inner := AtTarget(body, strings, target, true, names + [name]);
    var tail := AtTarget(rest, strings, target, open != [], names);
    assert done + (inner + tail) == (done + inner) + tail;
    WalkCollects(body, strings, target, open + [Inherited(open)], names + [name], settings, done);
    var v := FindWalk(body, strings, target, open + [Inherited(open)], names + [name], settings);
    WalkCollects(rest, strings, target, open, names, v.settings, done + inner);
  }

  lemma {:induction false} ReachedAfter(t: Items, strings: Bytes, target: Bytes, open: seq<RegNode>,
        names: seq<Bytes>, settings: Settings, done: seq<Setting>, at: Place)
    returns (before: seq<Setting>)
    requires MadeBy(settings, done) && Reaches(t, strings, target, open, names, settings, at)
    ensures StandsAfter(t, strings, target, open != [], names, done, at.value, before) && MadeBy(at.settings, before)
    decreases t
  {
    match t
    case Nop(rest) => before := ReachedAfter(rest, strings, target, open, names, settings, done, at);
    case Prop(nameoff, value, rest) =>
      if open == [] {
        assert done + [] == done;
        before := ReachedAfter(rest, strings, target, open, names, settings, done, at);
      } else {
        var name := GetString(strings, nameoff);
        if name == Ascii("reg") && Joined(names) == target && at == Place(names, open, settings, value) {
          before := done;
        } else {
          PropStep(open, strings, target, names, settings, done, nameoff, value);
          var next := OnProp(open, Joined(names), target, settings, name, value);
          before := ReachedAfter(rest, strings, target, WithTop(open, next.node), names, next.settings,
            done + Here(strings, target, true, names, nameoff, value), at);
        }
      }
    case Child(name, body, rest) =>
      if Reaches(body, strings, target, open + [Inherited(open)], names + [name], settings, at) {
        before := ReachedAfter(body, strings, target, open + [Inherited(open)], names + [name], settings, done, at);
      } else {
        WalkCollects(body, strings, target, open + [Inherited(open)], names + [name], settings, done);
        var v := FindWalk(body, strings, target, open + [Inherited(open)], names + [name], settings);
        before := ReachedAfter(rest, strings, target, open, names, v.settings,
          done + AtTarget(body, strings, target, true, names + [name]), at);
      }
  }

  /**
   Where the search reaches a register, its settings are made by the
   properties that stood at the target before it, wherever else properties of
   these names stand: the last reg-shift, reg-io-width and clock-frequency of
   at least four bytes, and any skip-init.
  */
  lemma {:induction false} SettingsStoodBefore(t: Items, strings: Bytes, target: Bytes, at: Place)
    returns (before: seq<Setting>)
    requires Reaches(t, strings, target, [], [], DEFAULTS, at)
    ensures StandsAfter(t, strings, target, false, [], [], at.value, before)
    ensures at.settings.regShift == Default(LastWord(before, Ascii("reg-shift")), 0)
    ensures at.settings.regIoWidth == Default(LastWord(before, Ascii("reg-io-width")), 4)
    ensures at.settings.clock == LastWord(before, Ascii("clock-frequency"))
    ensures at.settings.skipInit <==> Named(before, Ascii("skip-init"))
  {
    before := ReachedAfter(t, strings, target, [], [], DEFAULTS, [], at);
  }

  // ---- Which register answers ------------------------------------------------

  /** A register that is reached and holds an entry is the answer, so the first such one is. */
  lemma {:induction false} ReachedEntryAnswers(t: Items, strings: Bytes, target: Bytes, open: seq<RegNode>,
        names: seq<Bytes>, settings: Settings, at: Place)
    requires Reaches(t, strings, target, open, names, settings, at)
    requires OnReg(at.open, target, at.settings, at.value).Ends?
    ensures FindWalk(t, strings, target, open, names, settings) ==
      Found(OnReg(at.open, target, at.settings, at.value).answer)
    decreases t
  {
    match t
    case Nop(rest) => ReachedEntryAnswers(rest, strings, target, open, names, settings, at);
    case Prop(nameoff, value, rest) =>
      if open == [] {
        ReachedEntryAnswers(rest, strings, target, open, names, settings, at);
      } else {
        var name := GetString(strings, nameoff);
        var next := OnProp(open, Joined(names), target, settings, name, value);
        if name == Ascii("reg") && Joined(names) == target && at == Place(names, open, settings, value) {
          RegIsNoNodeName();
        } else {
          ReachedEntryAnswers(rest, strings, target, WithTop(open, next.node), names, next.settings, at);
        }
      }
    case Child(name, body, rest) =>
      if Reaches(body, strings, target, open + [Inherited(open)], names + [name], settings, at) {
        ReachedEntryAnswers(body, strings, target, open + [Inherited(open)], names + [name], settings, at);
      } else {
        var v := FindWalk(body, strings, target, open + [Inherited(open)], names + [name], settings);
        ReachedEntryAnswers(rest, strings, target, open, names, v.settings, at);
      }
  }

  lemma {:induction false} RegIsNoNodeName()
    ensures !IsNodeName(Ascii("reg"))
  {
    assert |Ascii("#address-cells")| == 14 && |Ascii("#size-cells")| == 11 && |Ascii("ranges")| == 6;
    assert |Ascii("reg")| == 3;
  }

  /**
   So the search of a tree answers with a register exactly when it reaches one
   that holds an entry, and answers what that register comes to.
  */
  lemma {:induction false} AnswersExactly(t: Items, strings: Bytes, target: Bytes, answer: Answer)
    requires answer.Reply?
    ensures FindWalk(t, strings, target, [], [], DEFAULTS) == Found(answer) <==>
      exists at :: Reaches(t, strings, target, [], [], DEFAULTS, at) &&
                   OnReg(at.open, target, at.settings, at.value) == Ends(answer)
  {
    if FindWalk(t, strings, target, [], [], DEFAULTS) == Found(answer) {
      var at := ReplyHasPlace(t, strings, target, [], [], DEFAULTS);
    } else if at :| Reaches(t, strings, target, [], [], DEFAULTS, at) &&
                    OnReg(at.open, target, at.settings, at.value) == Ends(answer) {
      ReachedEntryAnswers(t, strings, target, [], [], DEFAULTS, at);
    }
  }
}
