/**
  The questions the command line asks (pkg/prompt/prompt.go): their answer validators, how an
  answer becomes the value written through the reference, and the service searcher.

  The terminal is modelled by what the user types in answer to a prompt: a `Terminal` maps the
  prompt shown (its label, its pre-filled default and its validator) to the user's entries in
  order. promptui keeps asking until an entry passes the validator, so the answer is the first
  entry the validator accepts; an interrupt, or running out of entries, ends the prompt with an
  error.
 */
module Prompt {
  import opened Wrappers
  import opened Strings

  /** The validators the prompts install. */
  datatype Validator = Anything | Required | YesNo

  /** The answers the yes/no validator accepts, once lower-cased. */
  const YesNoAnswers: seq<string> := ["y", "yes", "n", "no"]

  /** The validator of `AskRequired` and `AskArrayRequired`: rejects blank text. */
  function ValidateRequired(s: string): (err: Option<string>)
    ensures err.None? <==> !IsBlank(s)
  {
    if TrimSpace(s) == "" then Some("required") else None
  }

  /** The validator of `AskYesNo`: accepts y, yes, n and no in any letter case. */
  function ValidateYesNo(s: string): (err: Option<string>)
    ensures err.None? <==> ToLower(s) in YesNoAnswers
  {
    var ans := ToLower(s);
    if ans == "y" || ans == "yes" || ans == "n" || ans == "no" then None
    else Some("please answer yes(y) or no(n)")
  }

  function Validate(v: Validator, s: string): Option<string> {
    match v
    case Anything => None
    case Required => ValidateRequired(s)
    case YesNo => ValidateYesNo(s)
  }

  /** A text prompt as shown: its question, the pre-filled default (`preset`), and its validator. */
  datatype TextPrompt = TextPrompt(question: string, preset: string, validator: Validator)

  /** One thing the user does at a prompt: submit a line of text, or interrupt. */
  datatype Entry = Enter(text: string) | Interrupt(reason: string)

  /** The user at the terminal: what they enter when shown a prompt. */
  type Terminal = TextPrompt -> seq<Entry>

  /** The error promptui reports when the input ends. */
  const EndOfInput: string := "EOF"

  /** `Prompt.Run`: the first entry the validator accepts, skipping the rejected ones; an
      interrupt, or the end of the entries, is an error. */
  function Run(p: TextPrompt, entries: seq<Entry>): (r: Result<string, string>)
    ensures r.Ok? ==> Validate(p.validator, r.value).None?
    ensures entries != [] && entries[0].Enter? && Validate(p.validator, entries[0].text).None? ==>
      r == Ok(entries[0].text)
  {
    if entries == [] then Err(EndOfInput)
    else
      match entries[0]
      case Interrupt(reason) => Err(reason)
      case Enter(text) =>
        if Validate(p.validator, text).None? then Ok(text) else Run(p, entries[1..])
  }

  /** Entry `k` is the text `answer`, and every entry before it was text the validator rejected. */
  predicate FirstAcceptedAt(p: TextPrompt, entries: seq<Entry>, k: nat, answer: string) {
    && k < |entries| && entries[k] == Enter(answer)
    && forall j :: 0 <= j < k ==> entries[j].Enter? && Validate(p.validator, entries[j].text).Some?
  }

  /** An answer is one of the entries, and every entry before it was text the validator
      rejected. */
  lemma {:induction false} RunAnswersFirstAccepted(p: TextPrompt, entries: seq<Entry>)
    ensures var r := Run(p, entries);
      r.Ok? ==> exists k: nat :: FirstAcceptedAt(p, entries, k, r.value)
  {
    var r := Run(p, entries);
    if r.Ok? && entries[0].Enter? && Validate(p.validator, entries[0].text).Some? {
      var tail := entries[1..];
      assert r == Run(p, tail);
      RunAnswersFirstAccepted(p, tail);
      var k: nat :| FirstAcceptedAt(p, tail, k, r.value);
      ShiftFirstAccepted(p, entries, k, r.value);
    } else if r.Ok? {
      assert FirstAcceptedAt(p, entries, 0, r.value);
    }
  }

  lemma ShiftFirstAccepted(p: TextPrompt, entries: seq<Entry>, k: nat, answer: string)
    requires entries != [] && entries[0].Enter? && Validate(p.validator, entries[0].text).Some?
    requires FirstAcceptedAt(p, entries[1..], k, answer)
    ensures FirstAcceptedAt(p, entries, k + 1, answer)
  {
    assert forall j :: 1 <= j < k + 1 ==> entries[j] == entries[1..][j - 1];
  }

  /** The user accepts whatever default a prompt shows, at once. */
  ghost predicate TakesDefault(user: Terminal) {
    forall p :: user(p) == [Enter(p.preset)]
  }

  /** What a question writes through its reference, and the error it returns. */
  datatype Answer<T> = Answer(value: T, err: Option<string>)

  /** `Ask` and `AskRequired`: on an error promptui answers "", which is written all the same. */
  function AskWith(v: Validator, question: string, defaultValue: string, user: Terminal): (a: Answer<string>)
    ensures a.err.None? ==> Validate(v, a.value).None?
    ensures a.err.Some? ==> a.value == ""
  {
    match Run(TextPrompt(question, defaultValue, v), user(TextPrompt(question, defaultValue, v)))
    case Ok(text) => Answer(text, None)
    case Err(e) => Answer("", Some(e))
  }

  /** `Ask`: any answer. With no validator, the first line typed is the answer; an interrupt,
      or no entry at all, is an error, and "" is written. */
  function Ask(question: string, defaultValue: string, user: Terminal): (a: Answer<string>)
    ensures var entries := user(TextPrompt(question, defaultValue, Anything));
      && (entries != [] && entries[0].Enter? ==> a == Answer(entries[0].text, None))
      && (entries == [] || entries[0].Interrupt? ==> a.err.Some? && a.value == "")
  {
    AskWith(Anything, question, defaultValue, user)
  }

  /** `AskRequired`: the answer is never blank. */
  function AskRequired(question: string, defaultValue: string, user: Terminal): (a: Answer<string>)
    ensures a.err.None? ==> !IsBlank(a.value)
  {
    AskWith(Required, question, defaultValue, user)
  }

  /** `AskArrayRequired`: the defaults are shown joined by `sep`, and the answer, which is never
      blank, is split on `sep`; on an error the reference keeps its value `current`. */
  function AskArrayRequired(question: string, defaultValue: seq<string>, current: seq<string>, sep: string,
                            user: Terminal): (a: Answer<seq<string>>)
    ensures a.err.Some? ==> a.value == current
    ensures a.err.None? ==> exists s :: !IsBlank(s) && a.value == Split(s, sep)
  {
    var p := TextPrompt(question, Join(defaultValue, sep), Required);
    match Run(p, user(p))
    case Err(e) => Answer(current, Some(e))
    case Ok(ans) => Answer(Split(ans, sep), None)
  }

  /** Accepting the shown default of `AskArrayRequired` gives back the defaults, when they are not
      all blank and none contains the one-character separator. */
  lemma ArrayDefaultRoundTrip(question: string, defaultValue: seq<string>, current: seq<string>, c: char,
                              user: Terminal)
    requires TakesDefault(user)
    requires |defaultValue| >= 1 && forall k :: 0 <= k < |defaultValue| ==> c !in defaultValue[k]
    requires !IsBlank(Join(defaultValue, [c]))
    ensures AskArrayRequired(question, defaultValue, current, [c], user) == Answer(defaultValue, None)
  {
    var p := TextPrompt(question, Join(defaultValue, [c]), Required);
    assert user(p) == [Enter(p.preset)];
    assert Run(p, user(p)) == Ok(p.preset);
    SplitJoin(defaultValue, c);
  }

  /** `*ref = ToLower(yesNo) == "y" || ToLower(yesNo) == "yes"`. */
  predicate IsYes(answer: string) {
    ToLower(answer) == "y" || ToLower(answer) == "yes"
  }

  /** On an answer the yes/no validator accepts, yes means the answer starts with `y` or `Y`. */
  lemma IsYesOnValidAnswers(answer: string)
    requires ValidateYesNo(answer).None?
    ensures IsYes(answer) <==> answer[0] == 'y' || answer[0] == 'Y'
  {
    var lower := ToLower(answer);
    assert lower[0] == LowerChar(answer[0]);
    assert |answer| == |lower| >= 1;
  }

  /** `AskYesNo`: true exactly when the accepted answer is y or yes in any letter case; false on
      an error, since promptui then answers "". */
  function AskYesNo(question: string, defaultValue: string, user: Terminal): (a: Answer<bool>)
    ensures a.err.Some? ==> !a.value
    ensures var p := TextPrompt(question + " (y/n)", defaultValue, YesNo);
      a.err.None? ==>
        exists k: nat, answer :: && FirstAcceptedAt(p, user(p), k, answer)
                                 && ValidateYesNo(answer).None? && |answer| >= 1
                                 && (a.value <==> answer[0] == 'y' || answer[0] == 'Y')
  {
    var p := TextPrompt(question + " (y/n)", defaultValue, YesNo);
    match Run(p, user(p))
    case Ok(yesNo) =>
      RunAnswersFirstAccepted(p, user(p));
      assert |ToLower(yesNo)| >= 1;
      IsYesOnValidAnswers(yesNo);
      Answer(IsYes(yesNo), None)
    case Err(e) => Answer(IsYes(""), Some(e))
  }

  /** `AskYesNoBool`: the default is shown as `y` for true and `n` for false. */
  function AskYesNoBool(question: string, defaultValue: bool, user: Terminal): Answer<bool> {
    if defaultValue then AskYesNo(question, "y", user) else AskYesNo(question, "n", user)
  }

  /** Accepting the shown default of `AskYesNoBool` answers the default. */
  lemma YesNoBoolDefault(question: string, defaultValue: bool, user: Terminal)
    requires TakesDefault(user)
    ensures AskYesNoBool(question, defaultValue, user) == Answer(defaultValue, None)
  {
    var d := if defaultValue then "y" else "n";
    var p := TextPrompt(question + " (y/n)", d, YesNo);
    assert user(p) == [Enter(d)];
    assert ToLower("y") == "y" && ToLower("n") == "n";
  }

  /** A service deployed on the Docker swarm, as the deployer lists it. */
  datatype DockerService = DockerService(id: string, image: string, mode: string, name: string,
                                         ports: string, replicas: string)

  /** The entry put first in the list, for not updating any service. */
  const NoUpdate: DockerService := DockerService("", "", "", "I don't need to update", "", "")

  /** `s` without any occurrence of `c`. */
  function Without(s: string, c: char): (r: string)
    ensures c !in r
    ensures (forall k :: 0 <= k < |s| ==> s[k] == c) ==> r == []
  {
    if s == [] then [] else (if s[0] == c then [] else [s[0]]) + Without(s[1..], c)
  }

  lemma {:induction false} WithoutAppend(a: string, b: string, c: char)
    ensures Without(a + b, c) == Without(a, c) + Without(b, c)
  {
    if a != [] {
      var head := if a[0] == c then [] else [a[0]];
      assert (a + b)[0] == a[0];
      assert (a + b)[1..] == a[1..] + b;
      assert Without(a + b, c) == head + Without(a[1..] + b, c);
      WithoutAppend(a[1..], b, c);
      assert head + (Without(a[1..], c) + Without(b, c)) == (head + Without(a[1..], c)) + Without(b, c);
    } else {
      assert a + b == b;
    }
  }

  lemma {:induction false} WithoutAbsent(s: string, c: char)
    requires c !in s
    ensures Without(s, c) == s
  {
    if s != [] {
      WithoutAbsent(s[1..], c);
    }
  }

  /** Replacing every `c` by nothing removes the character. */
  lemma {:induction false} ReplaceAllRemoves(s: string, c: char)
    ensures ReplaceAll(s, [c], "") == Without(s, c)
    decreases |s|
  {
    OccursAtChar(s, c);
    IndexFindsFirst(s, [c]);
    var r := Index(s, [c]);
    if r.None? {
      WithoutAbsent(s, c);
    } else {
      var i := r.value;
      var rest := s[i + 1..];
      assert c !in s[..i];
      WithoutAbsent(s[..i], c);
      assert s == s[..i] + [c] + rest;
      WithoutAppend(s[..i] + [c], rest, c);
      WithoutAppend(s[..i], [c], c);
      assert Without([c], c) == [];
      ReplaceAllAt(s, [c], "", i, rest);
      ReplaceAllRemoves(rest, c);
    }
  }

  /** What the searcher compares: lower case, without spaces. */
  function Squash(s: string): (r: string)
    ensures ' ' !in r
  {
    ReplaceAllRemoves(ToLower(s), ' ');
    ReplaceAll(ToLower(s), " ", "")
  }

  /** The `Searcher` of `AskServiceID`: the name of the service at `index` contains the input,
      both lower-cased and without spaces. */
  predicate Searcher(services: seq<DockerService>, input: string, index: nat)
    requires index < |services|
  {
    Contains(Squash(services[index].name), Squash(input))
  }

  lemma {:induction false} ToLowerIdempotent(s: string)
    ensures ToLower(ToLower(s)) == ToLower(s)
  {
  }

  lemma ToLowerAppend(a: string, b: string)
    ensures ToLower(a + b) == ToLower(a) + ToLower(b)
  {
  }

  lemma {:induction false} LowerWithout(s: string)
    ensures ToLower(Without(s, ' ')) == Without(ToLower(s), ' ')
    decreases |s|
  {
    if s != [] {
      var head := [s[0]];
      var t := if s[0] == ' ' then [] else head;
      assert Without(s, ' ') == t + Without(s[1..], ' ');
      ToLowerAppend(t, Without(s[1..], ' '));
      LowerWithout(s[1..]);
      assert s == head + s[1..];
      ToLowerAppend(head, s[1..]);
      WithoutAppend(ToLower(head), ToLower(s[1..]), ' ');
      assert ToLower(head) == [LowerChar(s[0])];
      assert ToLower(t) == Without(ToLower(head), ' ');
    }
  }

  /** Searching with input already lower-cased and without spaces finds the same services:
      the searcher ignores letter case and spaces. */
  lemma SquashIdempotent(s: string)
    ensures Squash(Squash(s)) == Squash(s)
  {
    ReplaceAllRemoves(ToLower(s), ' ');
    var w := Without(ToLower(s), ' ');
    LowerWithout(ToLower(s));
    ToLowerIdempotent(s);
    ReplaceAllRemoves(ToLower(w), ' ');
    WithoutAbsent(ToLower(w), ' ');
  }

  lemma SquashIsWithout(s: string)
    ensures Squash(s) == Without(ToLower(s), ' ')
  {
    ReplaceAllRemoves(ToLower(s), ' ');
  }

  lemma WithoutDropsSpace(a: string, b: string)
    ensures Without(a + " " + b, ' ') == Without(a + b, ' ')
  {
    var x := a + " ";
    WithoutAppend(x, b, ' ');
    WithoutAppend(a, " ", ' ');
    WithoutAppend(a, b, ' ');
    WithoutSpace();
    assert Without(x, ' ') == Without(a, ' ');
  }

  lemma WithoutSpace()
    ensures Without(" ", ' ') == []
  {
    assert " "[0] == ' ';
  }

  lemma SquashDropsSpace(a: string, b: string)
    ensures Squash(a + " " + b) == Squash(a + b)
  {
    SquashIsWithout(a + " " + b);
    SquashIsWithout(a + b);
    ToLowerAppend(a + " ", b);
    ToLowerAppend(a, " ");
    ToLowerAppend(a, b);
    assert ToLower(" ") == " ";
    WithoutDropsSpace(ToLower(a), ToLower(b));
  }

  /** A space in the input does not matter. */
  lemma SearcherIgnoresSpaces(services: seq<DockerService>, a: string, b: string, index: nat)
    requires index < |services|
    ensures Searcher(services, a + " " + b, index) == Searcher(services, a + b, index)
  {
    SquashDropsSpace(a, b);
  }

  /** The letter case of the input does not matter. */
  lemma SearcherIgnoresCase(services: seq<DockerService>, input: string, index: nat)
    requires index < |services|
    ensures Searcher(services, ToLower(input), index) == Searcher(services, input, index)
  {
    SquashIsWithout(ToLower(input));
    SquashIsWithout(input);
    ToLowerIdempotent(input);
  }

  /** Input of nothing but spaces matches every service. */
  lemma SearcherBlankMatchesAll(services: seq<DockerService>, input: string, index: nat)
    requires index < |services|
    requires forall k :: 0 <= k < |input| ==> input[k] == ' '
    ensures Searcher(services, input, index)
  {
    SquashIsWithout(input);
    assert Squash(input) == "";
    assert HasPrefix(Squash(services[index].name), "");
  }

  /** What the user picks from a list: the index of an item, or an interrupt. */
  datatype Selection = Choose(index: nat) | Cancel(reason: string)

  /** The question of `AskServiceID`. */
  const ServiceQuestion: string := "Service id to update image (leave blank if you don't need to update)"

  /** `AskServiceID`: with a default, or when the deployer lists no service or cannot be reached,
      the id is asked as free text; otherwise the user picks from the services, after an entry
      for not updating, whose id is empty; on an error the reference keeps `current`. The
      deployer's answer is `lookup`; the list shown is `NoUpdate` followed by the services, and
      the user's pick is an index into it. */
  function AskServiceID(defaultValue: string, lookup: Result<seq<DockerService>, string>, current: string,
                        user: Terminal, pick: Selection): (a: Answer<string>)
    requires defaultValue == "" && lookup.Ok? && lookup.value != [] && pick.Choose? ==> pick.index <= |lookup.value|
    ensures defaultValue != "" ==> a == Ask(ServiceQuestion, defaultValue, user)
    ensures defaultValue == "" && (lookup.Err? || lookup.value == []) ==> a == Ask(ServiceQuestion, "", user)
  {
    if defaultValue != "" then Ask(ServiceQuestion, defaultValue, user)
    else if lookup.Err? || |lookup.value| == 0 then Ask(ServiceQuestion, defaultValue, user)
    else
      var services := [NoUpdate] + lookup.value;
      match pick
      case Cancel(reason) => Answer(current, Some(reason))
      case Choose(i) => Answer(services[i].id, None)
  }

  /** With a default, the deployer's answer does not matter (it is never asked). */
  lemma ServiceIDDefaultSkipsLookup(defaultValue: string, l1: Result<seq<DockerService>, string>,
                                    l2: Result<seq<DockerService>, string>, current: string,
                                    user: Terminal, pick: Selection)
    requires defaultValue != ""
    ensures AskServiceID(defaultValue, l1, current, user, pick) == AskServiceID(defaultValue, l2, current, user, pick)
  {
  }

  /** Picking from the list: the first entry gives the empty id, entry `i + 1` the id of the
      `i`-th service, and a cancelled pick an error, leaving the reference as it was. */
  lemma ServiceIDPick(services: seq<DockerService>, current: string, user: Terminal, pick: Selection)
    requires services != [] && (pick.Choose? ==> pick.index <= |services|)
    ensures var a := AskServiceID("", Ok(services), current, user, pick);
      && (pick == Choose(0) ==> a == Answer("", None))
      && (pick.Choose? && pick.index > 0 ==> a == Answer(services[pick.index - 1].id, None))
      && (pick.Cancel? ==> a == Answer(current, Some(pick.reason)))
  {
    if pick.Choose? && pick.index > 0 {
      assert ([NoUpdate] + services)[pick.index] == services[pick.index - 1];
    }
  }
}
