/**
 * The key-choice prompt of the terminal utilities: which characters a prompt accepts,
 * whether a pressed key is one of them, and the read loops that wait for the first
 * accepted key. Case mapping is that of ASCII; keyboard reads are an explicit input.
 */
module Choice {
  import opened Common

  /** The lowercase form of an ASCII letter; any other character is kept. */
  function ToLower(c: char): char {
    if 'A' <= c <= 'Z' then (c as int + 32) as char else c
  }

  /** The uppercase form of an ASCII letter; any other character is kept. */
  function ToUpper(c: char): char {
    if 'a' <= c <= 'z' then (c as int - 32) as char else c
  }

  /** The case-insensitive list: the lowercase and then the uppercase form of each
      choice, in order. */
  function Doubled(s: string): (r: seq<char>)
    ensures |r| == 2 * |s|
    decreases |s|
  {
    if |s| == 0 then [] else Doubled(s[..|s| - 1]) + [ToLower(s[|s| - 1]), ToUpper(s[|s| - 1])]
  }

  /** The characters a prompt compares a key with. */
  function ChoiceList(choices: string, caseSensitive: bool): seq<char> {
    if caseSensitive then choices else Doubled(choices)
  }

  /** The list building of choice and crossterm_choice: the characters themselves when
      case-sensitive, else both case forms of each, pushed one character at a time. */
  method BuildChoices(choices: string, caseSensitive: bool) returns (list: seq<char>)
    ensures list == ChoiceList(choices, caseSensitive)
  {
    if caseSensitive {
      list := choices;
    } else {
      list := [];
      for i := 0 to |choices|
        invariant list == Doubled(choices[..i])
      {
        assert choices[..i + 1][..i] == choices[..i];
        list := list + [ToLower(choices[i])];
        list := list + [ToUpper(choices[i])];
      }
      assert choices[..|choices|] == choices;
    }
  }

  /** The entries of the case-insensitive list at 2i and 2i+1 are the two case forms of
      choice i. */
  lemma {:induction false} DoubledEntries(s: string, i: nat)
    requires i < |s|
    ensures Doubled(s)[2 * i] == ToLower(s[i]) && Doubled(s)[2 * i + 1] == ToUpper(s[i])
    decreases |s|
  {
    var init := s[..|s| - 1];
    if i < |s| - 1 {
      DoubledEntries(init, i);
      assert Doubled(s)[2 * i] == Doubled(init)[2 * i];
      assert Doubled(s)[2 * i + 1] == Doubled(init)[2 * i + 1];
    }
  }

  /** A character is in the case-insensitive list exactly when it is a case form of one
      of the choices. */
  lemma {:induction false} DoubledMembers(s: string, x: char)
    ensures x in Doubled(s) <==> exists i :: 0 <= i < |s| && (x == ToLower(s[i]) || x == ToUpper(s[i]))
    decreases |s|
  {
    if |s| > 0 {
      var init := s[..|s| - 1];
      DoubledMembers(init, x);
      assert forall i :: 0 <= i < |init| ==> init[i] == s[i];
      if x in Doubled(init) {
        var i :| 0 <= i < |init| && (x == ToLower(init[i]) || x == ToUpper(init[i]));
        assert 0 <= i < |s| && (x == ToLower(s[i]) || x == ToUpper(s[i]));
      }
    }
  }

  /** Whether a pressed key is accepted: it is in the list, or the prompt ignores case
      and its lowercase form is in the list. */
  predicate Accepts(list: seq<char>, caseSensitive: bool, c: char) {
    c in list || (!caseSensitive && ToLower(c) in list)
  }

  /** What acceptance comes to: when case-sensitive, the key is one of the choices;
      otherwise it is one of them up to case. */
  lemma AcceptsMeaning(choices: string, caseSensitive: bool, c: char)
    ensures caseSensitive ==> (Accepts(ChoiceList(choices, caseSensitive), caseSensitive, c) <==> c in choices)
    ensures !caseSensitive ==> (Accepts(ChoiceList(choices, caseSensitive), caseSensitive, c)
      <==> exists i :: 0 <= i < |choices| && ToLower(choices[i]) == ToLower(c))
  {
    if !caseSensitive {
      DoubledMembers(choices, c);
      DoubledMembers(choices, ToLower(c));
      if exists i :: 0 <= i < |choices| && ToLower(choices[i]) == ToLower(c) {
        var i :| 0 <= i < |choices| && ToLower(choices[i]) == ToLower(c);
        assert ToLower(c) == ToLower(choices[i]);
      }
    }
  }

  /** choice: the keyboard is read one byte at a time (None: a read that did not give
      one byte); the first byte accepted is returned as pressed, not in a normalised
      form. None: the input ran out, where the source would go on waiting. */
  method ChooseKey(choices: string, caseSensitive: bool, keys: seq<Option<byte>>)
      returns (r: Option<char>, used: nat)
    ensures used <= |keys|
    ensures r.None? ==> used == |keys|
    ensures forall k :: 0 <= k < used - 1 || (r.None? && 0 <= k < used) ==>
      keys[k].None? || !Accepts(ChoiceList(choices, caseSensitive), caseSensitive, keys[k].value as char)
    ensures r.Some? ==> (
      && 1 <= used && keys[used - 1].Some?
      && r.value == keys[used - 1].value as char
      && Accepts(ChoiceList(choices, caseSensitive), caseSensitive, r.value))
  {
    var list := BuildChoices(choices, caseSensitive);
    used := 0;
    r := None;
    while used < |keys|
      invariant used <= |keys|
      invariant forall k :: 0 <= k < used ==>
        keys[k].None? || !Accepts(list, caseSensitive, keys[k].value as char)
    {
      var read := keys[used];
      used := used + 1;
      if read.Some? {
        var pressed := read.value as char;
        if pressed in list || (!caseSensitive && ToLower(pressed) in list) {
          r := Some(pressed);
          return;
        }
      }
    }
  }

  /** The escape character. */
  const ESC: char := 27 as char

  /** A key code as the terminal library reports it. */
  datatype KeyCode = CharKey(c: char) | Esc | Enter | OtherKey

  /** What one read of a terminal event gives: a key event (a press or a release), some
      other event, or an error. */
  datatype TermEvent = Key(code: KeyCode, press: bool) | OtherEvent | ReadFailed

  /** The character a key press picks, if it picks one: a character key by Accepts; Esc
      when the choices hold an escape; Enter, as a newline, when they hold a carriage
      return or a newline. Esc and Enter are looked up in the choices themselves, not
      in the case-doubled list. */
  function KeyChoice(choices: string, list: seq<char>, caseSensitive: bool, code: KeyCode): Option<char> {
    match code
    case CharKey(c) => if Accepts(list, caseSensitive, c) then Some(c) else None
    case Esc => if ESC in choices then Some(ESC) else None
    case Enter => if '\r' in choices || '\n' in choices then Some('\n') else None
    case OtherKey => None
  }

  /** What ends the read loop: a key choosing a character, or a failed read. */
  datatype Decision = Chose(c: char) | ReadErr

  /** Whether an event ends the read loop, and how. Key releases and other events never
      do. */
  function Decide(choices: string, list: seq<char>, caseSensitive: bool, e: TermEvent): Option<Decision> {
    match e
    case ReadFailed => Some(ReadErr)
    case OtherEvent => None
    case Key(code, press) =>
      if !press then None
      else match KeyChoice(choices, list, caseSensitive, code)
        case None => None
        case Some(c) => Some(Chose(c))
  }

  /** The result of crossterm_choice: a character, an error, or still waiting. */
  datatype Outcome = Picked(c: char) | Error | Waiting

  /** The result and whether the terminal is left in raw mode, once the loop has ended
      with d (None: still in the loop). As written (fixed false) a failed read returns
      at once, before raw mode is turned off; fixed, it leaves the loop and raw mode is
      turned off first. A failure to turn raw mode off is returned as the error. */
  function Finish(d: Option<Decision>, disableOk: bool, fixed: bool): (Outcome, bool) {
    match d
    case None => (Waiting, true)
    case Some(ReadErr) => if fixed then (Error, !disableOk) else (Error, true)
    case Some(Chose(c)) => if disableOk then (Picked(c), false) else (Error, true)
  }

  /** crossterm_choice: raw mode is turned on (a failure is returned at once), terminal
      events are read until one decides, and raw mode is turned off again. */
  method CrosstermChoice(choices: string, caseSensitive: bool, events: seq<TermEvent>,
                         enableOk: bool, disableOk: bool, fixed: bool)
      returns (r: Outcome, rawMode: bool, decision: Option<Decision>, used: nat)
    ensures !enableOk ==> r == Error && !rawMode && used == 0 && decision.None?
    ensures enableOk ==> (r, rawMode) == Finish(decision, disableOk, fixed)
    ensures used <= |events|
    ensures forall k :: 0 <= k < used - 1 || (decision.None? && 0 <= k < used) ==>
      Decide(choices, ChoiceList(choices, caseSensitive), caseSensitive, events[k]).None?
    ensures decision.None? ==> !enableOk || used == |events|
    ensures decision.Some? ==> (
      && 1 <= used
      && Decide(choices, ChoiceList(choices, caseSensitive), caseSensitive, events[used - 1]) == decision)
  {
    used := 0;
    decision := None;
    if !enableOk {
      r, rawMode := Error, false;
      return;
    }
    rawMode := true;
    var list := BuildChoices(choices, caseSensitive);
    while used < |events|
      invariant used <= |events| && decision.None?
      invariant forall k :: 0 <= k < used ==> Decide(choices, list, caseSensitive, events[k]).None?
    {
      var e := events[used];
      used := used + 1;
      match e {
        case ReadFailed =>
          decision := Some(ReadErr);
          if !fixed {
            r := Error;
            return;
          }
          break;
        case OtherEvent =>
        case Key(code, press) =>
          if press {
            match code {
              case CharKey(c) =>
                if c in list || (!caseSensitive && ToLower(c) in list) {
                  decision := Some(Chose(c));
                  break;
                }
              case Esc =>
                if ESC in choices {
                  decision := Some(Chose(ESC));
                  break;
                }
              case Enter =>
                if '\r' in choices || '\n' in choices {
                  decision := Some(Chose('\n'));
                  break;
                }
              case OtherKey =>
            }
          }
      }
    }
    if decision.None? {
      r := Waiting;
      return;
    }
    if !disableOk {
      r := Error;
      return;
    }
    rawMode := false;
    r := if decision.value.Chose? then Picked(decision.value.c) else Error;
  }

  /** As written, a failed read leaves the terminal in raw mode although turning raw
      mode off would have succeeded. */
  lemma AsWrittenReadErrorLeavesRawMode()
    ensures Finish(Some(ReadErr), true, false) == (Error, true)
  {
  }

  /** Fixed, the loop never ends with the terminal in raw mode unless turning raw mode
      off failed; as written, that holds only for loops ended by a key. */
  lemma CorrectedRestoresTerminal(d: Option<Decision>, disableOk: bool)
    ensures d.Some? && disableOk ==> !Finish(d, disableOk, true).1
    ensures d.Some? && d.value.Chose? && disableOk ==> !Finish(d, disableOk, false).1
    ensures d.Some? ==> (Finish(d, disableOk, true).0.Picked? <==> d.value.Chose? && disableOk)
  {
  }
}
