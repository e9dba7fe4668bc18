/** `ConfigManager::loadFromFile`: merging a JSON object into the running configuration,
    with hot-reloadable keys and change callbacks. */
module Config {

  /** What the JSON parser makes of a file: nothing; a number, string, truth value or array
      with elements, whose iterators have no key; or an object's members with their dumped
      values, in iteration order. `null` and the empty array have nothing to iterate over
      and read as an object without members. */
  datatype Parsed = Bad | Keyless | Object(members: seq<(string, string)>)

  /** Keys of a JSON object are distinct, and the empty file is not JSON. */
  ghost predicate GoodParser(parse: string -> Parsed) {
    && parse("").Bad?
    && forall c :: parse(c).Object? ==> DistinctKeys(parse(c).members)
  }

  ghost predicate DistinctKeys(members: seq<(string, string)>) {
    forall i, j :: 0 <= i < j < |members| ==> members[i].0 != members[j].0
  }

  const HOT_KEYS: set<string> :=
    {"log_close", "rate_limiter_close", "interceptor_close", "log_level", "cache_mode"}

  predicate Hot(key: string) { key in HOT_KEYS }

  /** `m_config` and `m_last_loaded_content`. */
  datatype State = State(config: map<string, string>, last: string)

  const START := State(map[], "")

  /** Whether the loop body stores this member, and whether it reports it as changed. */
  predicate Stores(config: map<string, string>, first: bool, m: (string, string)) {
    (first || Hot(m.0)) && (m.0 !in config || config[m.0] != m.1)
  }

  /** The loop over the members: the new configuration and the changed keys. */
  function Merge(config: map<string, string>, first: bool, members: seq<(string, string)>):
    (map<string, string>, seq<string>)
  {
    if members == [] then (config, [])
    else
      var (c, changed) := Merge(config, first, members[..|members| - 1]);
      var m := members[|members| - 1];
      if !Stores(c, first, m) then (c, changed)
      else (c[m.0 := m.1], if !first && Hot(m.0) then changed + [m.0] else changed)
  }

  /** Loading parsed content, without the shortcut for unchanged files. */
  function Process(s: State, content: string, members: seq<(string, string)>): (State, seq<string>) {
    var (config, changed) := Merge(s.config, s.config == map[], members);
    (State(config, content), changed)
  }

  /** `loadFromFile` on a readable file: the new state and the changed keys. */
  function Load(parse: string -> Parsed, s: State, content: string): (State, seq<string>) {
    if content == s.last then (s, [])
    else match parse(content)
      case Object(members) => Process(s, content, members)
      case _ => (s, [])
  }

  /** The callbacks a load runs, in order. */
  function Callbacks(callbacks: map<string, nat>, changed: seq<string>): seq<nat> {
    if changed == [] then []
    else
      var k := changed[|changed| - 1];
      Callbacks(callbacks, changed[..|changed| - 1]) + (if k in callbacks then [callbacks[k]] else [])
  }

  datatype Value = Absent | Is(value: string)

  function Lookup(config: map<string, string>, key: string): Value {
    if key in config then Is(config[key]) else Absent
  }

  function MemberValue(members: seq<(string, string)>, key: string): Value {
    if members == [] then Absent
    else if members[|members| - 1].0 == key then Is(members[|members| - 1].1)
    else MemberValue(members[..|members| - 1], key)
  }

  // ---- one load ----

  lemma {:induction false} MemberIn(members: seq<(string, string)>, key: string)
    ensures MemberValue(members, key).Absent? <==> forall i :: 0 <= i < |members| ==> members[i].0 != key
  {
    if members != [] { MemberIn(members[..|members| - 1], key); }
  }

  /** What one merge does, key by key: a member that may be stored decides, everything
      else stays; a hot key is reported once, exactly when its value changes. */
  lemma {:induction false} MergeIs(config: map<string, string>, first: bool, members: seq<(string, string)>,
                                   key: string)
    requires DistinctKeys(members)
    ensures var (c, changed) := Merge(config, first, members);
      var given := MemberValue(members, key);
      && Lookup(c, key) == (if given.Is? && (first || Hot(key)) then given else Lookup(config, key))
      && (key in changed <==> !first && Hot(key) && given.Is? && given != Lookup(config, key))
      && (forall i, j :: 0 <= i < j < |changed| ==> changed[i] != changed[j])
      && (forall k :: k in changed ==> MemberValue(members, k).Is?)
  {
    if members != [] {
      var front, m := members[..|members| - 1], members[|members| - 1];
      MergeIs(config, first, front, key);
      MergeIs(config, first, front, m.0);
      MemberIn(front, m.0);
      hide Hot;
      var r := Merge(config, first, front);
      forall k | k in Merge(config, first, members).1 ensures MemberValue(members, k).Is? {
        if k in r.1 { assert MemberValue(front, k).Is?; }
      }
    }
  }

  /** Merging the same members again changes nothing and reports nothing. */
  lemma {:induction false} MergeAgain(config: map<string, string>, members: seq<(string, string)>)
    requires forall i :: 0 <= i < |members| && Hot(members[i].0) ==> Lookup(config, members[i].0) == Is(members[i].1)
    requires config == map[] ==> members == []
    ensures Merge(config, config == map[], members) == (config, [])
  {
    if members != [] {
      var front := members[..|members| - 1];
      assert forall i :: 0 <= i < |front| ==> front[i] == members[i];
      MergeFront(config, front);
    }
  }

  lemma {:induction false} MergeFront(config: map<string, string>, members: seq<(string, string)>)
    requires forall i :: 0 <= i < |members| && Hot(members[i].0) ==> Lookup(config, members[i].0) == Is(members[i].1)
    ensures Merge(config, false, members) == (config, [])
  {
    if members != [] {
      var front := members[..|members| - 1];
      assert forall i :: 0 <= i < |front| ==> front[i] == members[i];
      MergeFront(config, front);
    }
  }

  // ---- sequences of loads ----

  function Run(parse: string -> Parsed, contents: seq<string>): State {
    if contents == [] then START else Load(parse, Run(parse, contents[..|contents| - 1]), contents[|contents| - 1]).0
  }

  /** Reference for a hot key: its value in the latest parsed content that has it. */
  function LatestValue(parse: string -> Parsed, contents: seq<string>, key: string): Value {
    if contents == [] then Absent
    else
      var before := LatestValue(parse, contents[..|contents| - 1], key);
      match parse(contents[|contents| - 1])
      case Object(members) => if MemberValue(members, key).Is? then MemberValue(members, key) else before
      case _ => before
  }

  /** The members of the first parsed content that has any. */
  function FirstMembers(parse: string -> Parsed, contents: seq<string>): seq<(string, string)> {
    if contents == [] then []
    else
      var before := FirstMembers(parse, contents[..|contents| - 1]);
      if before != [] then before
      else match parse(contents[|contents| - 1])
        case Object(members) => members
        case _ => []
  }

  function Expected(parse: string -> Parsed, contents: seq<string>, key: string): Value {
    if Hot(key) then LatestValue(parse, contents, key) else MemberValue(FirstMembers(parse, contents), key)
  }

  /** The state agrees with the history, and the remembered content is fully in effect. */
  ghost predicate Agrees(parse: string -> Parsed, contents: seq<string>, s: State) {
    && (forall key :: Lookup(s.config, key) == Expected(parse, contents, key))
    && (s.config == map[] <==> FirstMembers(parse, contents) == [])
    && (parse(s.last).Object? ==> InEffect(s, parse(s.last).members))
    && (!parse(s.last).Object? ==> s.last == "")
  }

  ghost predicate InEffect(s: State, members: seq<(string, string)>) {
    && (s.config == map[] ==> members == [])
    && forall i :: 0 <= i < |members| && Hot(members[i].0) ==> Lookup(s.config, members[i].0) == Is(members[i].1)
  }

  lemma {:induction false} MemberValueAt(members: seq<(string, string)>, i: nat)
    requires DistinctKeys(members) && i < |members|
    ensures MemberValue(members, members[i].0) == Is(members[i].1)
  {
    var n := |members| - 1;
    if i < n {
      assert members[..n][i] == members[i];
      MemberValueAt(members[..n], i);
    }
  }

  lemma SkipAgrees(parse: string -> Parsed, before: seq<string>, s: State, content: string)
    requires Agrees(parse, before, s) && (content == s.last || !parse(content).Object?)
    requires parse(content).Object? ==> DistinctKeys(parse(content).members)
    ensures Agrees(parse, before + [content], s)
  {
    var after := before + [content];
    assert after[..|after| - 1] == before;
    forall key ensures Lookup(s.config, key) == Expected(parse, after, key) {
      assert Lookup(s.config, key) == Expected(parse, before, key);
      if parse(content).Object? {
        var members := parse(content).members;
        MemberIn(members, key);
        if MemberValue(members, key).Is? {
          var i :| 0 <= i < |members| && members[i].0 == key;
          MemberValueAt(members, i);
        }
      }
    }
  }

  lemma ProcessAgrees(parse: string -> Parsed, before: seq<string>, s: State, content: string)
    requires Agrees(parse, before, s) && parse(content).Object? && DistinctKeys(parse(content).members)
    ensures Agrees(parse, before + [content], Process(s, content, parse(content).members).0)
  {
    var after, members := before + [content], parse(content).members;
    assert after[..|after| - 1] == before;
    var s' := Process(s, content, members).0;
    hide Hot;
    forall key ensures Lookup(s'.config, key) == Expected(parse, after, key) {
      MergeIs(s.config, s.config == map[], members, key);
      assert Lookup(s.config, key) == Expected(parse, before, key);
    }
    ProcessInEffect(s, content, members);
  }

  lemma ProcessInEffect(s: State, content: string, members: seq<(string, string)>)
    requires DistinctKeys(members)
    ensures var s' := Process(s, content, members).0;
      InEffect(s', members) && (s'.config == map[] <==> s.config == map[] && members == [])
  {
    var s' := Process(s, content, members).0;
    hide Hot;
    forall i | 0 <= i < |members| && (s.config == map[] || Hot(members[i].0))
      ensures Lookup(s'.config, members[i].0) == Is(members[i].1)
    {
      MergeIs(s.config, s.config == map[], members, members[i].0);
      MemberValueAt(members, i);
    }
    if s.config == map[] && members != [] {
      assert Lookup(s'.config, members[0].0).Is?;
    }
    if s.config != map[] {
      var k :| k in s.config;
      MergeIs(s.config, false, members, k);
      assert Lookup(s'.config, k).Is?;
    }
  }

  lemma {:induction false} RunAgrees(parse: string -> Parsed, contents: seq<string>)
    requires GoodParser(parse)
    ensures Agrees(parse, contents, Run(parse, contents))
  {
    hide Agrees;
    if contents == [] {
      StartAgrees(parse);
    } else {
      var before, content := contents[..|contents| - 1], contents[|contents| - 1];
      assert contents == before + [content];
      RunAgrees(parse, before);
      var s := Run(parse, before);
      if content == s.last || !parse(content).Object? {
        SkipAgrees(parse, before, s, content);
      } else {
        ProcessAgrees(parse, before, s, content);
      }
    }
  }

  lemma StartAgrees(parse: string -> Parsed)
    requires GoodParser(parse)
    ensures Agrees(parse, [], START)
  {
  }

  /** Over every sequence of loads a hot key has its value from the latest parsed content
      that contains it, and any other key keeps for ever its value from the first parsed
      content that was not empty. */
  lemma ConfigIsExpected(parse: string -> Parsed, contents: seq<string>, key: string)
    requires GoodParser(parse)
    ensures Lookup(Run(parse, contents).config, key) ==
      if Hot(key) then LatestValue(parse, contents, key) else MemberValue(FirstMembers(parse, contents), key)
  {
    RunAgrees(parse, contents);
    hide Run;
  }

  /** In every run a load reports, once each, exactly the hot keys of its content whose
      value differs from the one in effect, and none while the configuration is empty. */
  lemma ReportsExactlyTheChanges(parse: string -> Parsed, contents: seq<string>, content: string, key: string)
    requires GoodParser(parse) && parse(content).Object?
    ensures var s := Run(parse, contents);
      var changed := Load(parse, s, content).1;
      var given := MemberValue(parse(content).members, key);
      && (key in changed <==>
            FirstMembers(parse, contents) != [] && Hot(key) && given.Is? && given != LatestValue(parse, contents, key))
      && (forall i, j :: 0 <= i < j < |changed| ==> changed[i] != changed[j])
  {
    RunAgrees(parse, contents);
    var s := Run(parse, contents);
    hide Run;
    var members := parse(content).members;
    assert Lookup(s.config, key) == Expected(parse, contents, key);
    MergeIs(s.config, s.config == map[], members, key);
    if content == s.last {
      MemberIn(members, key);
      if MemberValue(members, key).Is? {
        var i :| 0 <= i < |members| && members[i].0 == key;
        MemberValueAt(members, i);
      }
    }
  }

  /** The reported keys that this callback is registered for. */
  ghost function Watched(callbacks: map<string, nat>, changed: seq<string>, cb: nat): set<string> {
    set k | k in changed && k in callbacks && callbacks[k] == cb
  }

  /** Each registered callback runs once for each reported key it is registered for, and
      nothing else runs. */
  lemma {:induction false} CallbacksRunOncePerChange(callbacks: map<string, nat>, changed: seq<string>, cb: nat)
    requires forall i, j :: 0 <= i < j < |changed| ==> changed[i] != changed[j]
    ensures multiset(Callbacks(callbacks, changed))[cb] == |Watched(callbacks, changed, cb)|
  {
    if changed == [] {
      assert Watched(callbacks, changed, cb) == {};
    } else {
      var front, k := changed[..|changed| - 1], changed[|changed| - 1];
      assert changed == front + [k];
      CallbacksRunOncePerChange(callbacks, front, cb);
      assert multiset(Callbacks(callbacks, changed))[cb] ==
        multiset(Callbacks(callbacks, front))[cb] + (if k in callbacks && callbacks[k] == cb then 1 else 0);
      hide Callbacks;
      if k in callbacks && callbacks[k] == cb {
        assert Watched(callbacks, changed, cb) == Watched(callbacks, front, cb) + {k};
        assert k !in front;
      } else {
        assert Watched(callbacks, changed, cb) == Watched(callbacks, front, cb);
      }
    }
  }

  /** Reference: the callbacks of the hot keys among the members whose value is not the one in
      effect, in the order of the file. */
  ghost function Due(parse: string -> Parsed, contents: seq<string>, callbacks: map<string, nat>,
                     members: seq<(string, string)>): seq<nat> {
    if members == [] then []
    else
      var m := members[|members| - 1];
      Due(parse, contents, callbacks, members[..|members| - 1]) +
      (if m.0 in callbacks && Hot(m.0) && Is(m.1) != LatestValue(parse, contents, m.0) then [callbacks[m.0]] else [])
  }

  lemma {:induction false} MergeRuns(parse: string -> Parsed, contents: seq<string>, callbacks: map<string, nat>,
                                     config: map<string, string>, members: seq<(string, string)>)
    requires DistinctKeys(members)
    requires forall key :: Hot(key) ==> Lookup(config, key) == LatestValue(parse, contents, key)
    ensures Callbacks(callbacks, Merge(config, false, members).1) == Due(parse, contents, callbacks, members)
  {
    hide Hot, LatestValue;
    if members != [] {
      var front, m := members[..|members| - 1], members[|members| - 1];
      MergeRuns(parse, contents, callbacks, config, front);
      MergeIs(config, false, front, m.0);
      MemberIn(front, m.0);
      var before := Merge(config, false, front).1;
      assert (before + [m.0])[..|before|] == before;
    }
  }

  lemma {:induction false} FirstReportsNothing(config: map<string, string>, members: seq<(string, string)>)
    ensures Merge(config, true, members).1 == []
  {
    if members != [] { FirstReportsNothing(config, members[..|members| - 1]); }
  }

  /** In every run a load runs, in the order of the file, the callbacks of exactly the hot keys
      whose value in the file is not the one in effect, and none before there is a
      configuration. */
  lemma LoadRunsDue(parse: string -> Parsed, contents: seq<string>, content: string, callbacks: map<string, nat>)
    requires GoodParser(parse) && parse(content).Object?
    ensures Callbacks(callbacks, Load(parse, Run(parse, contents), content).1) ==
      if FirstMembers(parse, contents) == [] then []
      else Due(parse, contents, callbacks, parse(content).members)
  {
    RunAgrees(parse, contents);
    var s := Run(parse, contents);
    var members := parse(content).members;
    if content == s.last {
      SkippingIsReprocessing(parse, contents);
    }
    hide Run, InEffect, Hot, LatestValue, FirstMembers;
    if s.config == map[] {
      FirstReportsNothing(s.config, members);
    } else {
      forall key | Hot(key) ensures Lookup(s.config, key) == LatestValue(parse, contents, key) {
        assert Lookup(s.config, key) == Expected(parse, contents, key);
      }
      MergeRuns(parse, contents, callbacks, s.config, members);
    }
  }

  /** Skipping a file whose content did not change is the same as processing it again. */
  lemma SkippingIsReprocessing(parse: string -> Parsed, contents: seq<string>)
    requires GoodParser(parse) && parse(Run(parse, contents).last).Object?
    ensures var s := Run(parse, contents);
      Process(s, s.last, parse(s.last).members) == (s, []) == Load(parse, s, s.last)
  {
    RunAgrees(parse, contents);
    var s := Run(parse, contents);
    hide Run;
    MergeAgain(s.config, parse(s.last).members);
  }
}

/** `ConfigManager` as an object; `File` is what reading the path gives. */
module ConfigManagement {
  import opened Config

  datatype File = Unreadable | Content(text: string)

  /** How `loadFromFile` ends; `Threw` is the exception of `it.key()`, which nothing there
      catches. */
  datatype Outcome = Answered(loaded: bool) | Threw

  class ConfigManager {
    var config: map<string, string>
    var last: string
    var callbacks: map<string, nat>

    ghost function State(): Config.State
      reads this
    {
      Config.State(config, last)
    }

    /** The manager once the modules have registered their callbacks. */
    constructor (callbacks: map<string, nat>)
      ensures State() == START && this.callbacks == callbacks
    {
      config, last := map[], "";
      this.callbacks := callbacks;
    }

    /** The loop over the members of the parsed object. */
    method MergeMembers(members: seq<(string, string)>) returns (changed: seq<string>)
      modifies this`config
      ensures (config, changed) == Merge(old(config), old(config) == map[], members)
    {
      var first := config == map[];
      changed := [];
      var i := 0;
      while i < |members|
        invariant 0 <= i <= |members|
        invariant (config, changed) == Merge(old(config), first, members[..i])
      {
        var key, value := members[i].0, members[i].1;
        assert members[..i + 1][..i] == members[..i];
        var isChanged := key !in config || config[key] != value;
        if first || Hot(key) {
          if isChanged {
            config := config[key := value];
            if !first && Hot(key) {
              changed := changed + [key];
            }
          }
        }
        i := i + 1;
      }
      assert members[..|members|] == members;
    }

    /** Collects the callbacks of the changed keys. */
    method SelectCallbacks(changed: seq<string>) returns (run: seq<nat>)
      ensures run == Callbacks(callbacks, changed)
    {
      run := [];
      var i := 0;
      while i < |changed|
        invariant 0 <= i <= |changed|
        invariant run == Callbacks(callbacks, changed[..i])
      {
        assert changed[..i + 1][..i] == changed[..i];
        if changed[i] in callbacks {
          run := run + [callbacks[changed[i]]];
        }
        i := i + 1;
      }
      assert changed[..|changed|] == changed;
    }

    method LoadFromFile(parse: string -> Parsed, file: File) returns (outcome: Outcome, run: seq<nat>)
      modifies this`config, this`last
      ensures file.Unreadable? ==> State() == old(State()) && run == [] && outcome == Answered(false)
      ensures file.Content? ==>
        && State() == Load(parse, old(State()), file.text).0
        && run == Callbacks(callbacks, Load(parse, old(State()), file.text).1)
        && outcome == (if file.text == old(last) || parse(file.text).Bad? then Answered(false)
                       else if parse(file.text).Keyless? then Threw else Answered(true))
    {
      if file.Unreadable? { return Answered(false), []; }
      var content := file.text;
      if content == last { return Answered(false), []; }
      match parse(content)
      case Bad => return Answered(false), [];
      case Keyless => return Threw, [];
      case Object(members) =>
        var changed := MergeMembers(members);
        last := content;
        run := SelectCallbacks(changed);
        outcome := Answered(true);
    }
  }
}
