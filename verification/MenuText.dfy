/** Sending a menu text in pieces. */
module MenuText {
  import opened Basics

  const MAX_STRING_TO_SEND := 175
  const MAX_MENU_LENGTH := 512

  /** `size_t` has 32 bits. */
  const SIZE := 0x1_0000_0000

  /** One ShowMenu message. `view` is the piece meant; `text` is what goes out, because the writer takes
      the pointer of the view and runs on to the terminator of the whole menu. */
  datatype Message = Message(slots: int, time: int, more: bool, view: string, text: string)

  // ----- the loop, turn by turn ----------------------------------------------------------------

  /** The loop's variables; `buffer` is the view of `length` bytes at `currentPos`. */
  datatype State = State(currentPos: nat, menuLength: int, length: nat)

  function Start(size: nat): State {
    var menuLength := Min(size, MAX_MENU_LENGTH);
    State(0, menuLength, if menuLength > MAX_STRING_TO_SEND then MAX_STRING_TO_SEND else size)
  }

  /** The difference of two `size_t` values. */
  function Wrap(difference: int): int { if difference < 0 then difference + SIZE else difference }

  /** A turn; the subtraction wraps around. */
  function Turn(size: nat, st: State): State
    requires st.currentPos + st.length <= size
  {
    var menuLength := Wrap(st.menuLength - st.length);
    var currentPos := st.currentPos + st.length;
    var rest := size - currentPos;
    State(currentPos, menuLength, if menuLength > MAX_STRING_TO_SEND then Min(MAX_STRING_TO_SEND, rest) else rest)
  }

  function After(size: nat, turns: nat): (st: State)
    ensures st.currentPos + st.length <= size
  {
    if turns == 0 then Start(size) else Turn(size, After(size, turns - 1))
  }

  lemma AfterTurns(size: nat, turns: nat)
    ensures After(size, 0) == Start(size)
    ensures After(size, turns + 1) == Turn(size, After(size, turns))
  {
  }

  /** The do-while loop ends behind some turn. */
  ghost predicate Halts(size: nat) { exists turns: nat :: turns > 0 && After(size, turns).menuLength == 0 }

  /** Past 512 bytes the third turn subtracts more than is left, and the loop never ends. */
  lemma {:induction false} NeverEnds(size: nat, turns: nat)
    requires MAX_MENU_LENGTH < size < SIZE && turns >= 3
    ensures After(size, turns) == State(size, SIZE + MAX_MENU_LENGTH - size, 0)
  {
    if turns == 3 {
      assert After(size, 1) == State(175, 337, 175);
      assert After(size, 2) == State(350, 162, size - 350);
    } else {
      NeverEnds(size, turns - 1);
    }
  }

  lemma ShortEnds(size: nat)
    requires size <= MAX_MENU_LENGTH
    ensures exists turns: nat :: 0 < turns <= 3 && After(size, turns).menuLength == 0
  {
    if size <= 175 {
      assert After(size, 1).menuLength == 0;
    } else if size <= 350 {
      assert After(size, 1) == State(175, size - 175, size - 175);
      assert After(size, 2).menuLength == 0;
    } else {
      assert After(size, 1) == State(175, size - 175, Min(175, size - 175));
      assert After(size, 2) == State(350, size - 350, size - 350);
      assert After(size, 3).menuLength == 0;
    }
  }

  /** The loop ends exactly for menus of at most 512 bytes. */
  lemma HaltsIffShort(size: nat)
    requires size < SIZE
    ensures Halts(size) <==> size <= 512
  {
    if size <= MAX_MENU_LENGTH {
      ShortEnds(size);
    } else {
      forall turns: nat | turns > 0
        ensures After(size, turns).menuLength != 0
      {
        if turns >= 3 { NeverEnds(size, turns); }
        assert After(size, 1) == State(175, 337, 175);
        assert After(size, 2).menuLength == 162;
      }
    }
  }

  // ----- what is sent --------------------------------------------------------------------------

  /** The messages for a menu, in pieces of 175 bytes. */
  function Messages(slots: int, time: int, menu: string): seq<Message> {
    if |menu| <= MAX_STRING_TO_SEND then [Message(slots, time, false, menu, menu)]
    else [Message(slots, time, true, menu[..MAX_STRING_TO_SEND], menu)]
         + Messages(slots, time, menu[MAX_STRING_TO_SEND..])
  }

  lemma RestOfMenu(slots: int, time: int, menu: string, pos: nat)
    requires pos <= |menu|
    ensures var length := Min(MAX_STRING_TO_SEND, |menu| - pos);
            var message := Message(slots, time, pos + length < |menu|, menu[pos..pos + length], menu[pos..]);
            Messages(slots, time, menu[pos..])
            == [message] + if message.more then Messages(slots, time, menu[pos + length..]) else []
  {
    var rest := menu[pos..];
    if |rest| > MAX_STRING_TO_SEND {
      assert rest[MAX_STRING_TO_SEND..] == menu[pos + MAX_STRING_TO_SEND..];
      assert rest[..MAX_STRING_TO_SEND] == menu[pos..pos + MAX_STRING_TO_SEND];
    } else {
      assert menu[pos..pos + |rest|] == rest;
    }
  }

  /** The view `buffer` is kept as its length: it always starts at `currentPos`. */
  method ShowMenu(gmsgShowMenu: int, slots: int, time: int, menu: string) returns (sent: seq<Message>)
    requires |menu| <= 512
    ensures sent == if gmsgShowMenu == 0 then [] else Messages(slots, time, menu)
  {
    hide Messages, After;
    sent := [];
    if gmsgShowMenu == 0 { return; }
    var currentPos := 0;
    var menuLength := if |menu| > MAX_MENU_LENGTH then MAX_MENU_LENGTH else |menu|;
    var length: nat := if menuLength > MAX_STRING_TO_SEND then MAX_STRING_TO_SEND else |menu|;
    ghost var turns: nat, rest := 0, Messages(slots, time, menu);
    AfterTurns(|menu|, 0);
    assert menu[0..] == menu;
    var again := true;
    while again
      invariant 0 <= currentPos <= |menu| && After(|menu|, turns) == State(currentPos, menuLength, length)
      invariant again ==> length == Min(MAX_STRING_TO_SEND, menuLength) && menuLength == |menu| - currentPos
      invariant rest == if again then Messages(slots, time, menu[currentPos..]) else []
      invariant Messages(slots, time, menu) == sent + rest
      decreases again, menuLength
    {
      AfterTurns(|menu|, turns);
      turns := turns + 1;
      RestOfMenu(slots, time, menu, currentPos);
      ghost var before, tail := sent, rest[1..];
      menuLength := Wrap(menuLength - length);
      sent := sent + [Message(slots, time, menuLength > 0, menu[currentPos..currentPos + length], menu[currentPos..])];
      assert rest == [rest[0]] + tail && sent == before + [rest[0]];
      Regroup(before, rest[0], tail);
      currentPos := currentPos + length;
      length := if menuLength > MAX_STRING_TO_SEND then MAX_STRING_TO_SEND else |menu| - currentPos;
      again, rest := menuLength > 0, tail;
    }
  }

  lemma Regroup(a: seq<Message>, m: Message, b: seq<Message>)
    ensures a + ([m] + b) == (a + [m]) + b
  {
  }

  function Views(ms: seq<Message>): string { if ms == [] then "" else ms[0].view + Views(ms[1..]) }

  function Texts(ms: seq<Message>): string { if ms == [] then "" else ms[0].text + Texts(ms[1..]) }

  /** The pieces meant make up the menu; each is at most 175 bytes; all but the last are 175 and announce more.
      Every text is all that is left of the menu from its piece on. */
  lemma {:induction false} PiecesMakeUpMenu(slots: int, time: int, menu: string)
    ensures var ms := Messages(slots, time, menu);
            && ms != [] && Views(ms) == menu
            && (forall i :: 0 <= i < |ms| ==> |ms[i].view| <= 175 && (ms[i].more <==> i < |ms| - 1))
            && (forall i :: 0 <= i < |ms| ==> ms[i].slots == slots && ms[i].time == time)
            && (forall i :: 0 <= i < |ms| ==> |ms[i].text| == |menu| - 175 * i)
            && (forall i :: 0 <= i < |ms| - 1 ==> |ms[i].view| == 175)
    decreases |menu|
  {
    var ms := Messages(slots, time, menu);
    if |menu| > MAX_STRING_TO_SEND {
      PiecesMakeUpMenu(slots, time, menu[MAX_STRING_TO_SEND..]);
      assert ms[1..] == Messages(slots, time, menu[MAX_STRING_TO_SEND..]);
      assert forall i :: 1 <= i < |ms| ==> ms[i] == ms[1..][i - 1];
    }
  }

  /** What goes out makes up the menu only when one message is enough: otherwise every message carries
      all of the rest. */
  lemma TextsMakeUpMenuIffOne(slots: int, time: int, menu: string)
    ensures Texts(Messages(slots, time, menu)) == menu <==> |menu| <= 175
  {
  }
}
