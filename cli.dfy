/**
 * The interactive front end: the menu tables, the sub-menu loop that maps a selected
 * label back to its key and runs the bound action, and the main loop over the
 * SQS, S3, Configure and Exit choices. Prompt answers are one input sequence, read in
 * order; the actions of the sub-menus are named by their keys.
 */
module Cli {
  import opened Wrappers
  import opened Text
  import opened Configuration
  import Sqs

  /** A menu: `(key, label)` pairs in the dictionary's insertion order. */
  type Menu = seq<(string, string)>

  /** `MenuOptions.MAIN`. */
  const MainOptions: seq<string> := ["SQS", "S3", "Configure", "Exit"]

  /** `MenuOptions.SQS`. */
  const SqsOptions: Menu := [
    ("list_queues", "List queues"),
    ("display_message_count", "Count messages in queue"),
    ("open_queue_console", "Open queue in console"),
    ("display_queue_settings", "View queue settings"),
    ("clear_queue", "Clear queue"),
    ("scan_messages", "Scan messages"),
    ("send_message_to_queue", "Post message"),
    ("send_batch_messages", "Post messages from file"),
    ("back", "Back")]

  /** `MenuOptions.S3`. */
  const S3Options: Menu := [
    ("list_buckets", "List buckets"),
    ("open_bucket", "Open bucket in console"),
    ("delete_object", "Delete file"),
    ("upload_file", "Upload file"),
    ("upload_directory", "Upload directory"),
    ("back", "Back")]

  /** The keys of `SQSActionExecutor._init_actions`, in the dictionary's order. */
  const SqsActions: seq<string> := [
    "list_queues", "display_message_count", "open_queue_console", "display_queue_settings",
    "clear_queue", "scan_messages", "send_message_to_queue", "send_batch_messages"]

  /** The keys of `S3ActionExecutor._init_actions`, in the dictionary's order. */
  const S3Actions: seq<string> := ["list_buckets", "open_bucket", "delete_object", "upload_file", "upload_directory"]

  /** The key every sub-menu reserves for leaving it. */
  const BackKey := "back"

  /** No key occurs twice, as in any dictionary. */
  predicate DistinctKeys(m: Menu) {
    forall i, j :: 0 <= i < j < |m| ==> m[i].0 != m[j].0
  }

  /** No label occurs twice, so a label names one key. */
  predicate DistinctLabels(m: Menu) {
    forall i, j :: 0 <= i < j < |m| ==> m[i].1 != m[j].1
  }

  /** The keys of a menu other than `back`, in order. */
  function NonBackKeys(m: Menu): seq<string>
  {
    if m == [] then [] else (if m[0].0 == BackKey then [] else [m[0].0]) + NonBackKeys(m[1..])
  }

  // ---------------------------------------------------------------------------
  // looking up labels and keys

  /** The position of the first pair whose label is `caption`, or `|m|` when none is. */
  function IndexOfLabel(m: Menu, caption: string): (i: nat)
    ensures i <= |m|
    ensures i < |m| ==> m[i].1 == caption
    ensures forall j :: 0 <= j < i ==> m[j].1 != caption
  {
    if m == [] then 0
    else if m[0].1 == caption then 0
    else 1 + IndexOfLabel(m[1..], caption)
  }

  /** The position of the pair whose key is `key`, or `|m|` when none is. */
  function IndexOfKey(m: Menu, key: string): (i: nat)
    ensures i <= |m|
    ensures i < |m| ==> m[i].0 == key
    ensures forall j :: 0 <= j < i ==> m[j].0 != key
  {
    if m == [] then 0
    else if m[0].0 == key then 0
    else 1 + IndexOfKey(m[1..], key)
  }

  /** `next(k for k, v in menu.items() if v == label)`; `None` where it raises `StopIteration`. */
  function KeyOf(m: Menu, caption: string): Option<string>
  {
    var i := IndexOfLabel(m, caption);
    if i < |m| then Some(m[i].0) else None
  }

  /** `menu[key]`; `None` where it raises `KeyError`. */
  function LabelOf(m: Menu, key: string): Option<string>
  {
    var i := IndexOfKey(m, key);
    if i < |m| then Some(m[i].1) else None
  }

  /** The key found for a label is the key of the first pair with that label. */
  lemma KeyOfFirstMatch(m: Menu, caption: string, i: int)
    requires 0 <= i < |m| && m[i].1 == caption
    requires forall j :: 0 <= j < i ==> m[j].1 != caption
    ensures KeyOf(m, caption) == Some(m[i].0)
  {
  }

  /** The label found for a key is the label of the first pair with that key. */
  lemma LabelOfFirstMatch(m: Menu, key: string, i: int)
    requires 0 <= i < |m| && m[i].0 == key
    requires forall j :: 0 <= j < i ==> m[j].0 != key
    ensures LabelOf(m, key) == Some(m[i].1)
  {
  }

  /** No key is found for a label that no pair carries. */
  lemma KeyOfMissing(m: Menu, caption: string)
    requires forall i :: 0 <= i < |m| ==> m[i].1 != caption
    ensures KeyOf(m, caption) == None
  {
  }

  /** No label is found for a key that no pair carries. */
  lemma LabelOfMissing(m: Menu, key: string)
    requires forall i :: 0 <= i < |m| ==> m[i].0 != key
    ensures LabelOf(m, key) == None
  {
  }

  /** In a menu with distinct labels, a key's label leads back to the key. */
  lemma KeyOfLabelOf(m: Menu, key: string)
    requires DistinctLabels(m)
    requires LabelOf(m, key).Some?
    ensures KeyOf(m, LabelOf(m, key).value) == Some(key)
  {
    var i := IndexOfKey(m, key);
    var l := m[i].1;
    var k := IndexOfLabel(m, l);
    assert k <= i;
    assert !(k < i);
  }

  /** In a menu with distinct keys, a label's key leads back to the label. */
  lemma LabelOfKeyOf(m: Menu, caption: string)
    requires DistinctKeys(m)
    requires KeyOf(m, caption).Some?
    ensures LabelOf(m, KeyOf(m, caption).value) == Some(caption)
  {
    var i := IndexOfLabel(m, caption);
    var key := m[i].0;
    var k := IndexOfKey(m, key);
    assert k <= i;
    assert !(k < i);
  }

  // ---------------------------------------------------------------------------
  // the tables

  /** The SQS menu is a proper dictionary: no key appears twice. */
  lemma SqsKeysDistinct()
    ensures DistinctKeys(SqsOptions)
  {
  }

  /** The labels of the SQS menu tell its keys apart. */
  lemma SqsLabelsDistinct()
    ensures DistinctLabels(SqsOptions)
  {
  }

  /** The S3 menu is a proper dictionary: no key appears twice. */
  lemma S3KeysDistinct()
    ensures DistinctKeys(S3Options)
  {
  }

  /** The labels of the S3 menu tell its keys apart. */
  lemma S3LabelsDistinct()
    ensures DistinctLabels(S3Options)
  {
  }

  /** The SQS table binds exactly the 8 keys of the SQS menu other than `back`, in menu order. */
  lemma SqsActionTable()
    ensures SqsActions == NonBackKeys(SqsOptions) && |SqsActions| == 8
  {
  }

  /** The S3 table binds exactly the 5 keys of the S3 menu other than `back`, in menu order. */
  lemma S3ActionTable()
    ensures S3Actions == NonBackKeys(S3Options) && |S3Actions| == 5
  {
  }

  /** The SQS menu is left by its `Back` label. */
  lemma SqsBackLabel()
    ensures LabelOf(SqsOptions, BackKey) == Some("Back")
  {
    SqsKeysDistinct();
    LabelAt(SqsOptions, 8, BackKey);
  }

  /** The S3 menu is left by its `Back` label. */
  lemma S3BackLabel()
    ensures LabelOf(S3Options, BackKey) == Some("Back")
  {
    S3KeysDistinct();
    LabelAt(S3Options, 5, BackKey);
  }

  /** In a menu with distinct keys, the key at position `i` has the label at `i`. */
  lemma LabelAt(m: Menu, i: nat, key: string)
    requires DistinctKeys(m) && i < |m| && m[i].0 == key
    ensures LabelOf(m, key) == Some(m[i].1)
  {
    var j := IndexOfKey(m, key);
    assert j <= i;
    assert !(j < i);
  }

  // ---------------------------------------------------------------------------
  // the sub-menu loop

  /** How `execute_menu` ends. */
  datatype MenuExit =
    | Back                  // the `back` label was selected
    | AnswersExhausted      // the prompt is still waiting for an answer
    | Raised(error: Error)  // an exception escaped the loop

  /** What a run of `execute_menu` did: the keys whose actions ran, the answers read, the exit. */
  datatype MenuRun = MenuRun(ran: seq<string>, used: nat, exit: MenuExit)

  /**
   * `execute_menu` on a sequence of answers: each answer is one selection; the `back`
   * label ends the loop; any other label is mapped to its first key, whose action runs
   * when the table binds it. A menu without `back`, or a label no key carries, raises.
   */
  function RunMenu(m: Menu, actions: seq<string>, answers: seq<string>): (run: MenuRun)
    ensures run.used <= |answers|
    ensures answers != [] ==> run.used >= 1
    ensures run.exit.AnswersExhausted? ==> run.used == |answers|
    decreases |answers|
  {
    if answers == [] then MenuRun([], 0, AnswersExhausted)
    else
      match LabelOf(m, BackKey)
      case None => MenuRun([], 1, Raised(KeyError(BackKey)))
      case Some(backLabel) =>
        if answers[0] == backLabel then MenuRun([], 1, Back)
        else
          match KeyOf(m, answers[0])
          case None => MenuRun([], 1, Raised(StopIteration))
          case Some(key) =>
            var rest := RunMenu(m, actions, answers[1..]);
            MenuRun((if key in actions then [key] else []) + rest.ran, rest.used + 1, rest.exit)
  }

  /** A label other than `back` that a key carries runs that key's action, if any, and goes on. */
  lemma RunMenuContinues(m: Menu, actions: seq<string>, answers: seq<string>, key: string)
    requires answers != [] && LabelOf(m, BackKey).Some? && answers[0] != LabelOf(m, BackKey).value
    requires KeyOf(m, answers[0]) == Some(key)
    ensures var run := RunMenu(m, actions, answers);
      var rest := RunMenu(m, actions, answers[1..]);
      && run.ran == (if key in actions then [key] else []) + rest.ran
      && run.used == rest.used + 1
      && run.exit == rest.exit
  {
  }

  /** Selecting `back` first reads one answer and runs nothing. */
  lemma BackFirst(m: Menu, actions: seq<string>, answers: seq<string>)
    requires LabelOf(m, BackKey).Some?
    requires answers != [] && answers[0] == LabelOf(m, BackKey).value
    ensures RunMenu(m, actions, answers) == MenuRun([], 1, Back)
  {
  }

  /**
   * Only bound actions run, each after its own selection: no more actions than answers
   * read.
   */
  lemma {:induction false} RanOnlyBoundActions(m: Menu, actions: seq<string>, answers: seq<string>)
    ensures var run := RunMenu(m, actions, answers);
      && (forall k :: 0 <= k < |run.ran| ==> run.ran[k] in actions)
      && |run.ran| <= run.used
    decreases |answers|
  {
    if answers != [] && LabelOf(m, BackKey).Some? && answers[0] != LabelOf(m, BackKey).value
       && KeyOf(m, answers[0]).Some? {
      RanOnlyBoundActions(m, actions, answers[1..]);
    }
  }

  /** The labels of some keys, in order. */
  function LabelsOf(m: Menu, keys: seq<string>): seq<string>
    requires forall k :: 0 <= k < |keys| ==> LabelOf(m, keys[k]).Some?
  {
    seq(|keys|, k requires 0 <= k < |keys| => LabelOf(m, keys[k]).value)
  }

  /**
   * Selecting the labels of bound keys `k1 .. kn` and then `back` runs exactly
   * `k1 .. kn`, in order, reading `n + 1` answers.
   */
  lemma {:induction false} SelectionsThenBack(m: Menu, actions: seq<string>, keys: seq<string>, rest: seq<string>)
    requires DistinctLabels(m)
    requires LabelOf(m, BackKey).Some?
    requires forall k :: 0 <= k < |keys| ==> keys[k] in actions && LabelOf(m, keys[k]).Some? && keys[k] != BackKey
    requires rest != [] && rest[0] == LabelOf(m, BackKey).value
    ensures RunMenu(m, actions, LabelsOf(m, keys) + rest) == MenuRun(keys, |keys| + 1, Back)
    decreases |keys|
  {
    var answers := LabelsOf(m, keys) + rest;
    if keys == [] {
      assert answers == rest;
    } else {
      var key := keys[0];
      assert answers[0] == LabelOf(m, key).value;
      assert KeyOf(m, answers[0]) == Some(key) by {
        KeyOfLabelOf(m, key);
      }
      assert answers[0] != LabelOf(m, BackKey).value by {
        KeyOfLabelOf(m, BackKey);
      }
      assert answers[1..] == LabelsOf(m, keys[1..]) + rest;
      SelectionsThenBack(m, actions, keys[1..], rest);
      RunMenuContinues(m, actions, answers, key);
      assert [key] + keys[1..] == keys;
    }
  }

  // ---------------------------------------------------------------------------
  // the main loop

  datatype MenuId = SqsMenu | S3Menu

  function OptionsOf(menu: MenuId): Menu {
    match menu
    case SqsMenu => SqsOptions
    case S3Menu => S3Options
  }

  function ActionsOf(menu: MenuId): seq<string> {
    match menu
    case SqsMenu => SqsActions
    case S3Menu => S3Actions
  }

  /** What the main loop does that outlives one iteration. */
  datatype Event =
    | SessionCreated(menu: MenuId, args: map<string, string>)
    | ActionRan(menu: MenuId, key: string)
    | ConfigSaved(config: AWSConfig)

  /** How `main` ends. */
  datatype MainExit = Exited | OutOfAnswers | Failed(error: Error)

  /** What a run of `main` did, and the configuration file it leaves. */
  datatype MainRun = MainRun(events: seq<Event>, file: ConfigFile, exit: MainExit)

  /** The events of a sub-menu's actions. */
  function ActionEvents(menu: MenuId, keys: seq<string>): (events: seq<Event>)
    ensures |events| == |keys|
    ensures forall k :: 0 <= k < |keys| ==> events[k] == ActionRan(menu, keys[k])
  {
    seq(|keys|, k requires 0 <= k < |keys| => ActionRan(menu, keys[k]))
  }

  /** One iteration of `main`: what it did, the file after it, the answers it read, and how `main` ends if it does. */
  datatype Step = Step(events: seq<Event>, file: ConfigFile, consumed: nat, stop: Option<MainExit>)

  /**
   * Choosing "SQS" or "S3": a session is built from the file as it is now and the
   * sub-menu runs on the answers that follow; the file is not touched.
   */
  function MenuStep(file: ConfigFile, menu: MenuId, answers: seq<string>): (s: Step)
    ensures s.file == file
    ensures s.stop.None? ==> 1 <= s.consumed <= |answers| + 1
    ensures s.events != [] && s.events[0] == SessionCreated(menu, SessionArgs(Load(file)))
    ensures forall k :: 1 <= k < |s.events| ==> s.events[k].ActionRan? && s.events[k].menu == menu
  {
    MenuOutcome(file, menu, |answers|, RunMenu(OptionsOf(menu), ActionsOf(menu), answers))
  }

  /**
   * The iteration a sub-menu visit makes once its loop has run as `sub` on `n` answers:
   * the session, then one event per action run; leaving by `back` continues `main`.
   */
  function MenuOutcome(file: ConfigFile, menu: MenuId, n: nat, sub: MenuRun): (s: Step)
    requires sub.used <= n
    ensures s.file == file
    ensures s.stop.None? ==> 1 <= s.consumed <= n + 1
    ensures s.events != [] && s.events[0] == SessionCreated(menu, SessionArgs(Load(file)))
    ensures forall k :: 1 <= k < |s.events| ==> s.events[k].ActionRan? && s.events[k].menu == menu
  {
    var ran := [SessionCreated(menu, SessionArgs(Load(file)))] + ActionEvents(menu, sub.ran);
    var (consumed, stop) := AfterMenu(n, sub);
    Step(ran, file, consumed, stop)
  }

  /**
   * How `main` goes on after a sub-menu loop that ran as `sub` on `n` answers: leaving by
   * `back` continues after the answers read (and the choice itself); running out of
   * answers or raising ends `main`.
   */
  function AfterMenu(n: nat, sub: MenuRun): (r: (nat, Option<MainExit>))
    requires sub.used <= n
    ensures r.1 == None <==> sub.exit.Back?
    ensures r.1.None? ==> r.0 == 1 + sub.used && r.0 <= n + 1
    ensures sub.exit.Raised? ==> r.1 == Some(Failed(sub.exit.error))
  {
    match sub.exit
    case Back => (1 + sub.used, None)
    case AnswersExhausted => (n + 1, Some(OutOfAnswers))
    case Raised(e) => (1 + sub.used, Some(Failed(e)))
  }

  /** What an answer to the main menu selects. */
  datatype Choice = SqsChoice | S3Choice | ConfigureChoice | ExitChoice | NoChoice

  /** The entries of `MenuOptions.MAIN`, in the order of the `if` chain in `main`; anything else selects nothing. */
  function ChoiceOf(answer: string): (c: Choice)
    ensures c == SqsChoice <==> answer == MainOptions[0]
    ensures c == S3Choice <==> answer == MainOptions[1]
    ensures c == ConfigureChoice <==> answer == MainOptions[2]
    ensures c == ExitChoice <==> answer == MainOptions[3]
  {
    if answer == "SQS" then SqsChoice
    else if answer == "S3" then S3Choice
    else if answer == "Configure" then ConfigureChoice
    else if answer == "Exit" then ExitChoice
    else NoChoice
  }

  /**
   * One iteration of `main` on the answers still to come, from the configuration file
   * `file`: "SQS" and "S3" enter their sub-menu; "Configure" reads a region and a
   * profile and saves them stripped; "Exit" ends the loop; any other answer selects nothing.
   */
  function MainStep(file: ConfigFile, answers: seq<string>): (s: Step)
    requires answers != []
    ensures s.stop.None? ==> 1 <= s.consumed <= |answers|
    ensures ChoiceOf(answers[0]) != ConfigureChoice ==> s.file == file
  {
    var choice := ChoiceOf(answers[0]);
    if choice.SqsChoice? || choice.S3Choice? then MenuStep(file, MenuOf(choice), answers[1..])
    else match choice
    case ConfigureChoice =>
      if |answers| < 3 then Step([], file, |answers|, Some(OutOfAnswers))
      else
        var c := AWSConfig(Strip(answers[1]), Strip(answers[2]));
        Step([ConfigSaved(c)], Saved(c), 3, None)
    case ExitChoice => Step([], file, 1, Some(Exited))
    case NoChoice => Step([], file, 1, None)
  }

  /** The sub-menu a main-menu choice enters. */
  function MenuOf(choice: Choice): MenuId
    requires choice.SqsChoice? || choice.S3Choice?
  {
    if choice.SqsChoice? then SqsMenu else S3Menu
  }

  /** `main` on a sequence of answers, starting from the configuration file `file`. */
  function RunMain(file: ConfigFile, answers: seq<string>): MainRun
    decreases |answers|
  {
    if answers == [] then MainRun([], file, OutOfAnswers)
    else
      var step := MainStep(file, answers);
      match step.stop
      case Some(exit) => MainRun(step.events, step.file, exit)
      case None =>
        var rest := RunMain(step.file, answers[step.consumed..]);
        MainRun(step.events + rest.events, rest.file, rest.exit)
  }

  /** "Exit" first ends the session at once: nothing happens and the file is untouched. */
  lemma ExitFirst(file: ConfigFile, answers: seq<string>)
    requires answers != [] && answers[0] == "Exit"
    ensures RunMain(file, answers) == MainRun([], file, Exited)
  {
  }

  /** The records an iteration saves hold a stripped region and a stripped profile. */
  predicate SavesStripped(events: seq<Event>)
  {
    forall k :: 0 <= k < |events| && events[k].ConfigSaved? ==> IsStripped(events[k].config)
  }

  /** A record whose region and profile have no surrounding whitespace. */
  predicate IsStripped(c: AWSConfig)
  {
    Strip(c.region) == c.region && Strip(c.profile) == c.profile
  }

  /** Events among which no record is saved. */
  predicate NoSaves(events: seq<Event>)
  {
    forall k :: 0 <= k < |events| ==> !events[k].ConfigSaved?
  }

  lemma NoSavesStripped(events: seq<Event>)
    requires NoSaves(events)
    ensures SavesStripped(events)
  {
  }

  /** Entering a sub-menu saves no record. */
  lemma MenuStepSavesNothing(file: ConfigFile, menu: MenuId, answers: seq<string>)
    ensures NoSaves(MenuStep(file, menu, answers).events)
  {
    var s := MenuStep(file, menu, answers);
    assert !s.events[0].ConfigSaved?;
  }

  /** A record built from two stripped answers is stripped. */
  lemma StrippedConfig(region: string, profile: string)
    ensures IsStripped(AWSConfig(Strip(region), Strip(profile)))
  {
    StripIdempotent(region);
    StripIdempotent(profile);
  }

  lemma StepSavesStripped(file: ConfigFile, answers: seq<string>)
    requires answers != []
    ensures SavesStripped(MainStep(file, answers).events)
  {
    var choice := ChoiceOf(answers[0]);
    if choice.ConfigureChoice? && |answers| >= 3 {
      ConfigureSavesStripped(file, answers);
    } else if choice.SqsChoice? || choice.S3Choice? {
      MenuChoiceSavesNothing(file, answers);
      NoSavesStripped(MainStep(file, answers).events);
    } else {
      QuietStep(file, answers);
    }
  }

  /** Configuring saves one record, stripped on both fields. */
  lemma ConfigureSavesStripped(file: ConfigFile, answers: seq<string>)
    requires |answers| >= 3 && ChoiceOf(answers[0]).ConfigureChoice?
    ensures SavesStripped(MainStep(file, answers).events)
  {
    var c := AWSConfig(Strip(answers[1]), Strip(answers[2]));
    ConfigureStep(file, answers, c);
    StrippedConfig(answers[1], answers[2]);
    OneSaveStripped(c);
  }

  /** A lone save of a stripped record saves only stripped records. */
  lemma OneSaveStripped(c: AWSConfig)
    requires IsStripped(c)
    ensures SavesStripped([ConfigSaved(c)])
  {
  }

  /** Visiting a sub-menu saves no record and keeps the file. */
  lemma MenuChoiceSavesNothing(file: ConfigFile, answers: seq<string>)
    requires answers != [] && (ChoiceOf(answers[0]).SqsChoice? || ChoiceOf(answers[0]).S3Choice?)
    ensures NoSaves(MainStep(file, answers).events) && MainStep(file, answers).file == file
  {
    MenuChoiceStep(file, answers);
    MenuStepSavesNothing(file, MenuOf(ChoiceOf(answers[0])), answers[1..]);
  }

  /** Every record the main loop saves holds a stripped region and a stripped profile. */
  lemma {:induction false} SavedConfigsAreStripped(file: ConfigFile, answers: seq<string>)
    ensures SavesStripped(RunMain(file, answers).events)
    decreases |answers|
  {
    if answers != [] {
      var step := MainStep(file, answers);
      StepSavesStripped(file, answers);
      if step.stop.None? {
        var rest := RunMain(step.file, answers[step.consumed..]);
        SavedConfigsAreStripped(step.file, answers[step.consumed..]);
        var all := step.events + rest.events;
        forall k | 0 <= k < |all| && all[k].ConfigSaved?
          ensures IsStripped(all[k].config)
        {
          if k >= |step.events| {
            assert all[k] == rest.events[k - |step.events|];
          }
        }
      }
    }
  }

  /** The records saved during a run, in order. */
  function SavedConfigs(events: seq<Event>): seq<AWSConfig>
  {
    if events == [] then []
    else (if events[0].ConfigSaved? then [events[0].config] else []) + SavedConfigs(events[1..])
  }

  lemma {:induction false} SavedConfigsAppend(xs: seq<Event>, ys: seq<Event>)
    ensures SavedConfigs(xs + ys) == SavedConfigs(xs) + SavedConfigs(ys)
    decreases |xs|
  {
    if xs == [] {
      ConcatEmpty(ys);
    } else {
      var head := if xs[0].ConfigSaved? then [xs[0].config] else [];
      TailOfConcat(xs, ys);
      SavedConfigsAppend(xs[1..], ys);
      ConcatAssociates(head, SavedConfigs(xs[1..]), SavedConfigs(ys));
    }
  }

  /**
   * The file after a stretch of the run, given the file before it and the records the
   * stretch saved: unchanged when nothing was saved, otherwise the last record saved.
   */
  ghost predicate LastSaved(before: ConfigFile, saved: seq<AWSConfig>, after: ConfigFile) {
    && (saved == [] ==> after == before)
    && (saved != [] ==> after == Saved(saved[|saved| - 1]))
  }

  /** Two stretches, one after the other, make one stretch. */
  lemma LastSavedCompose(before: ConfigFile, mid: ConfigFile, after: ConfigFile, s1: seq<AWSConfig>, s2: seq<AWSConfig>)
    requires LastSaved(before, s1, mid) && LastSaved(mid, s2, after)
    ensures LastSaved(before, s1 + s2, after)
  {
    if s2 == [] {
      ConcatEmpty(s1);
    } else {
      assert (s1 + s2)[|s1 + s2| - 1] == s2[|s2| - 1];
    }
  }

  /** The file changes only by saving: one iteration either saves nothing and keeps the file, or saves one record and leaves it. */
  lemma StepFile(file: ConfigFile, answers: seq<string>)
    requires answers != []
    ensures var step := MainStep(file, answers); LastSaved(file, SavedConfigs(step.events), step.file)
  {
    var choice := ChoiceOf(answers[0]);
    if choice.ConfigureChoice? && |answers| >= 3 {
      ConfigureLeavesSaved(file, answers);
    } else if choice.SqsChoice? || choice.S3Choice? {
      MenuChoiceSavesNothing(file, answers);
      NoSavedConfigs(MainStep(file, answers).events);
    } else {
      QuietStep(file, answers);
    }
  }

  /** Configuring saves one record and leaves the file holding it. */
  lemma ConfigureLeavesSaved(file: ConfigFile, answers: seq<string>)
    requires |answers| >= 3 && ChoiceOf(answers[0]).ConfigureChoice?
    ensures var step := MainStep(file, answers); LastSaved(file, SavedConfigs(step.events), step.file)
  {
    var c := AWSConfig(Strip(answers[1]), Strip(answers[2]));
    ConfigureStep(file, answers, c);
    OneSaveLeavesIt(file, c);
  }

  /** A lone save leaves the file holding the record saved. */
  lemma OneSaveLeavesIt(file: ConfigFile, c: AWSConfig)
    ensures LastSaved(file, SavedConfigs([ConfigSaved(c)]), Saved(c))
  {
    assert SavedConfigs([ConfigSaved(c)]) == [c];
  }

  lemma {:induction false} NoSavedConfigs(events: seq<Event>)
    requires NoSaves(events)
    ensures SavedConfigs(events) == []
    decreases |events|
  {
    if events != [] {
      NoSavedConfigs(events[1..]);
    }
  }

  /**
   * The file changes only by saving: a run that saves nothing leaves it as it was, and
   * otherwise it holds the last record saved.
   */
  lemma {:induction false} FileChangesOnlyBySave(file: ConfigFile, answers: seq<string>)
    ensures var run := RunMain(file, answers); LastSaved(file, SavedConfigs(run.events), run.file)
    decreases |answers|
  {
    if answers != [] {
      var step := MainStep(file, answers);
      StepFile(file, answers);
      if step.stop.None? {
        var rest := RunMain(step.file, answers[step.consumed..]);
        RunAfterStep(file, answers);
        FileChangesOnlyBySave(step.file, answers[step.consumed..]);
        SavedConfigsAppend(step.events, rest.events);
        LastSavedCompose(file, step.file, rest.file, SavedConfigs(step.events), SavedConfigs(rest.events));
      }
    }
  }

  /** An iteration that does not end `main` is followed by `main` on the answers it left. */
  lemma RunAfterStep(file: ConfigFile, answers: seq<string>)
    requires answers != [] && MainStep(file, answers).stop.None?
    ensures var step := MainStep(file, answers);
      var rest := RunMain(step.file, answers[step.consumed..]);
      RunMain(file, answers) == MainRun(step.events + rest.events, rest.file, rest.exit)
  {
  }

  lemma ConfigureStep(file: ConfigFile, answers: seq<string>, c: AWSConfig)
    requires |answers| >= 3 && ChoiceOf(answers[0]).ConfigureChoice?
    requires c == AWSConfig(Strip(answers[1]), Strip(answers[2]))
    ensures MainStep(file, answers) == Step([ConfigSaved(c)], Saved(c), 3, None)
  {
  }
  /** Choosing `SQS` or `S3` runs that sub-menu on the answers after the choice. */
  lemma MenuChoiceStep(file: ConfigFile, answers: seq<string>)
    requires answers != [] && (ChoiceOf(answers[0]).SqsChoice? || ChoiceOf(answers[0]).S3Choice?)
    ensures MainStep(file, answers) == MenuStep(file, MenuOf(ChoiceOf(answers[0])), answers[1..])
  {
  }

  /** Any other iteration (exit, an unknown answer, or a configuration cut short) records nothing. */
  lemma QuietStep(file: ConfigFile, answers: seq<string>)
    requires answers != []
    requires !(ChoiceOf(answers[0]).SqsChoice? || ChoiceOf(answers[0]).S3Choice?)
    requires !(ChoiceOf(answers[0]).ConfigureChoice? && |answers| >= 3)
    ensures MainStep(file, answers).events == [] && MainStep(file, answers).file == file
  {
  }


  /** After "Configure", `main` goes on from the saved record with the answers that follow the two it read. */
  lemma ConfigureRun(file: ConfigFile, answers: seq<string>, c: AWSConfig)
    requires |answers| >= 3 && answers[0] == "Configure"
    requires c == AWSConfig(Strip(answers[1]), Strip(answers[2]))
    ensures var rest := RunMain(Saved(c), answers[3..]);
      RunMain(file, answers) == MainRun([ConfigSaved(c)] + rest.events, rest.file, rest.exit)
  {
    ConfigureStep(file, answers, c);
    RunAfterStep(file, answers);
  }

  /** Entering the SQS menu and leaving it at once, then exiting, builds one session from the file. */
  lemma SqsBackThenExit(file: ConfigFile, answers: seq<string>)
    requires answers == ["SQS", "Back", "Exit"]
    ensures RunMain(file, answers) == MainRun([SessionCreated(SqsMenu, SessionArgs(Load(file)))], file, Exited)
  {
    SqsBackLabel();
    assert answers[1..] == ["Back", "Exit"];
    assert RunMenu(SqsOptions, SqsActions, answers[1..]) == MenuRun([], 1, Back);
    assert MainStep(file, answers) == Step([SessionCreated(SqsMenu, SessionArgs(Load(file)))], file, 2, None);
    RunAfterStep(file, answers);
    assert answers[2..] == ["Exit"];
    ExitFirst(file, answers[2..]);
  }

  /**
   * Configuring and then opening the SQS menu builds the session from the record just
   * saved: its region and profile are the stripped answers.
   */
  lemma ConfigureThenSqs(file: ConfigFile, region: string, profile: string, answers: seq<string>)
    requires |answers| == 6 && answers[0] == "Configure" && answers[1] == region && answers[2] == profile
    requires answers[3..] == ["SQS", "Back", "Exit"]
    ensures var c := AWSConfig(Strip(region), Strip(profile));
      RunMain(file, answers) == MainRun([ConfigSaved(c), SessionCreated(SqsMenu, SessionArgs(c))], Saved(c), Exited)
  {
    var c := AWSConfig(Strip(region), Strip(profile));
    ConfigureRun(file, answers, c);
    SqsAfterSave(c, answers[3..]);
    ChainRuns(RunMain(file, answers), RunMain(Saved(c), answers[3..]), c, SessionCreated(SqsMenu, SessionArgs(c)));
  }

  /** `SQS`, `Back`, `Exit` after saving `c` builds one session from `c` and exits. */
  lemma SqsAfterSave(c: AWSConfig, answers: seq<string>)
    requires answers == ["SQS", "Back", "Exit"]
    ensures RunMain(Saved(c), answers) == MainRun([SessionCreated(SqsMenu, SessionArgs(c))], Saved(c), Exited)
  {
    SqsBackThenExit(Saved(c), answers);
    LoadSaved(c);
  }

  /** A save followed by a run that creates one session and exits. */
  lemma ChainRuns(whole: MainRun, rest: MainRun, c: AWSConfig, session: Event)
    requires whole == MainRun([ConfigSaved(c)] + rest.events, rest.file, rest.exit)
    requires rest == MainRun([session], Saved(c), Exited)
    ensures whole == MainRun([ConfigSaved(c), session], Saved(c), Exited)
  {
    assert [ConfigSaved(c)] + [session] == [ConfigSaved(c), session];
  }

  // ---------------------------------------------------------------------------
  // the imperative loops

  /** `MenuHandler`: a menu, the keys its action table binds, and the actions run so far. */
  class MenuHandler {
    const options: Menu
    const actions: seq<string>
    var ran: seq<string>

    constructor (options: Menu, actions: seq<string>)
      ensures this.options == options && this.actions == actions && ran == []
    {
      this.options := options;
      this.actions := actions;
      ran := [];
    }

    /** `execute_menu`, reading selections from `answers` in order. */
    method ExecuteMenu(answers: seq<string>) returns (used: nat, exit: MenuExit)
      modifies this
      ensures var run := RunMenu(options, actions, answers);
        ran == old(ran) + run.ran && used == run.used && exit == run.exit
    {
      var i := 0;
      ghost var whole := RunMenu(options, actions, answers);
      while true
        invariant 0 <= i <= |answers|
        invariant var rest := RunMenu(options, actions, answers[i..]);
          && whole.used == i + rest.used
          && whole.exit == rest.exit
          && old(ran) + whole.ran == ran + rest.ran
        decreases |answers| - i
      {
        if i == |answers| {
          used, exit := i, AnswersExhausted;
          return;
        }
        var selected := answers[i];
        var next := i + 1;
        var backLabel := LabelOf(options, BackKey);
        if backLabel.None? {
          used, exit := next, Raised(KeyError(BackKey));
          return;
        }
        if selected == backLabel.value {
          used, exit := next, Back;
          return;
        }
        var key := KeyOf(options, selected);
        if key.None? {
          used, exit := next, Raised(StopIteration);
          return;
        }
        ghost var before := ran;
        var chosen := if key.value in actions then [key.value] else [];
        ran := ran + chosen;
        assert old(ran) + whole.ran == ran + RunMenu(options, actions, answers[next..]).ran by {
          assert answers[i..][1..] == answers[next..];
          RunMenuContinues(options, actions, answers[i..], key.value);
          ConcatAssociates(before, chosen, RunMenu(options, actions, answers[next..]).ran);
        }
        assert answers[i..][1..] == answers[next..];
        i := next;
      }
    }
  }

  /** A sub-menu entered from `main`: one session, then the handler's loop. */
  method EnterMenu(manager: ConfigurationManager, menu: MenuId, answers: seq<string>)
    returns (events: seq<Event>, consumed: nat, stop: Option<MainExit>)
    ensures Step(events, manager.file, consumed, stop) == MenuStep(manager.file, menu, answers)
  {
    var args := manager.CreateSession();
    var handler := new MenuHandler(OptionsOf(menu), ActionsOf(menu));
    var used, subExit := handler.ExecuteMenu(answers);
    events := [SessionCreated(menu, args)] + ActionEvents(menu, handler.ran);
    var sub := MenuRun(handler.ran, used, subExit);
    assert sub == RunMenu(OptionsOf(menu), ActionsOf(menu), answers);
    consumed, stop := AfterMenu(|answers|, sub).0, AfterMenu(|answers|, sub).1;
  }

  /** One iteration of the loop in `main`, on the answers still to come. */
  method RunStep(manager: ConfigurationManager, answers: seq<string>)
    returns (events: seq<Event>, consumed: nat, stop: Option<MainExit>)
    requires answers != []
    modifies manager
    ensures Step(events, manager.file, consumed, stop) == MainStep(old(manager.file), answers)
  {
    var choice := ChoiceOf(answers[0]);
    if choice.SqsChoice? || choice.S3Choice? {
      events, consumed, stop := EnterMenu(manager, MenuOf(choice), answers[1..]);
    } else if choice.ConfigureChoice? {
      if |answers| < 3 {
        events, consumed, stop := [], |answers|, Some(OutOfAnswers);
        return;
      }
      var region, profile := answers[1], answers[2];
      var config := AWSConfig(Strip(region), Strip(profile));
      manager.SaveConfig(config);
      events, consumed, stop := [ConfigSaved(config)], 3, None;
    } else if choice.ExitChoice? {
      events, consumed, stop := [], 1, Some(Exited);
    } else {
      events, consumed, stop := [], 1, None;
    }
  }

  /** The run `whole` is the events `done` followed by `main` from `file` on `answers`. */
  ghost predicate Resumes(whole: MainRun, done: seq<Event>, file: ConfigFile, answers: seq<string>)
  {
    var rest := RunMain(file, answers);
    whole == MainRun(done + rest.events, rest.file, rest.exit)
  }

  /**
   * An iteration that does not end `main`, having produced `events`, left the file as
   * `next` and read `consumed` answers, moves the resumption point past those answers.
   */
  lemma Advance(whole: MainRun, done: seq<Event>, file: ConfigFile, answers: seq<string>,
                events: seq<Event>, next: ConfigFile, consumed: nat, later: seq<string>)
    requires answers != [] && Step(events, next, consumed, None) == MainStep(file, answers)
    requires consumed <= |answers| && later == answers[consumed..]
    requires Resumes(whole, done, file, answers)
    ensures Resumes(whole, done + events, next, later)
  {
    RunAfterStep(file, answers);
    var rest := RunMain(next, later);
    ConcatAssociates(done, events, rest.events);
  }

  /** An iteration that does not end `main` reads at least one answer and no more than there are. */
  lemma StepConsumes(file: ConfigFile, answers: seq<string>, events: seq<Event>, next: ConfigFile, consumed: nat)
    requires answers != [] && Step(events, next, consumed, None) == MainStep(file, answers)
    ensures 1 <= consumed <= |answers|
  {
  }

  /** Before the first iteration, the whole run is still ahead. */
  lemma Start(file: ConfigFile, answers: seq<string>)
    ensures Resumes(RunMain(file, answers), [], file, answers)
  {
    ConcatEmpty(RunMain(file, answers).events);
  }

  /** With no answers left, `main` is still waiting: the run is what was done so far. */
  lemma OutOfAnswersAt(whole: MainRun, done: seq<Event>, file: ConfigFile, answers: seq<string>)
    requires answers == [] && Resumes(whole, done, file, answers)
    ensures whole == MainRun(done, file, OutOfAnswers)
  {
    ConcatEmpty(done);
  }

  /** An iteration that ends `main` with `exit`, having produced `events` and left the file as `next`, completes the run. */
  lemma Finish(whole: MainRun, done: seq<Event>, file: ConfigFile, answers: seq<string>,
               events: seq<Event>, next: ConfigFile, consumed: nat, exit: MainExit)
    requires answers != [] && Step(events, next, consumed, Some(exit)) == MainStep(file, answers)
    requires Resumes(whole, done, file, answers)
    ensures whole == MainRun(done + events, next, exit)
  {
  }

  /**
   * `main`, reading answers in order and keeping the configuration file in `manager`:
   * the events it produces and the file it leaves are those of `RunMain`.
   */
  method MainLoop(manager: ConfigurationManager, answers: seq<string>) returns (events: seq<Event>, exit: MainExit)
    modifies manager
    ensures var run := RunMain(old(manager.file), answers);
      events == run.events && manager.file == run.file && exit == run.exit
  {
    ghost var whole := RunMain(manager.file, answers);
    events := [];
    var i := 0;
    Start(manager.file, answers);
    while true
      invariant 0 <= i <= |answers|
      invariant Resumes(whole, events, manager.file, answers[i..])
      decreases |answers| - i
    {
      if i == |answers| {
        assert whole == MainRun(events, manager.file, OutOfAnswers) by {
          OutOfAnswersAt(whole, events, manager.file, answers[i..]);
        }
        exit := OutOfAnswers;
        return;
      }
      ghost var file := manager.file;
      ghost var before := events;
      var stepEvents, consumed, stop := RunStep(manager, answers[i..]);
      events := events + stepEvents;
      if stop.Some? {
        assert whole == MainRun(events, manager.file, stop.value) by {
          Finish(whole, before, file, answers[i..], stepEvents, manager.file, consumed, stop.value);
        }
        exit := stop.value;
        return;
      }
      assert 1 <= consumed <= |answers| - i by {
        StepConsumes(file, answers[i..], stepEvents, manager.file, consumed);
      }
      var next := i + consumed;
      assert Resumes(whole, events, manager.file, answers[next..]) by {
        SliceOfSlice(answers, i, consumed);
        Advance(whole, before, file, answers[i..], stepEvents, manager.file, consumed, answers[next..]);
      }
      i := next;
    }
  }

  /** `_clear_queue`: the queue is purged only when the confirmation is given. */
  method ClearQueue(sqs: Sqs.SqsUtils, queueUrl: string, confirmed: bool)
    modifies sqs
    ensures confirmed ==> sqs.calls == old(sqs.calls) + [Sqs.PurgeQueue(queueUrl)]
    ensures !confirmed ==> sqs.calls == old(sqs.calls)
  {
    if confirmed {
      sqs.Purge(queueUrl);
    }
  }
}
