/** The session state machine: what each line of input means in each state. */
module Sessions {
  import opened Wrappers
  import opened Text
  import opened Registry

  datatype Account = Account(id: nat, username: string)

  datatype SessionState = Authenticating(username: Option<string>) | WorldSelection(account: Account)

  /** One line of the world menu. */
  datatype MenuEntry = MenuEntry(number: string, name: string, description: string)

  /** What is written to the client, by kind of message and the values filled in. */
  datatype Message =
    | Banner | UsernamePrompt | PasswordPrompt | EmptyUsername | EmptyPassword | Goodbye
    | Welcome(username: string) | WorldList(entries: seq<MenuEntry>) | WorldSelectPrompt(count: nat)
    | NonNumeric | OutOfRange(limit: nat) | WorldSelected(world: string)
    | AuthFailed | MaxRetries | RateLimited | InternalError
    | LineTooLongNotice | BufferOverflowNotice | ShutdownNotice

  datatype Transition =
    | Stay(output: seq<Message>)
    | Advance(next: SessionState, output: seq<Message>)
    | Disconnect(goodbye: seq<Message>)
    | AuthPending(username: string, password: string)

  const INITIAL: SessionState := Authenticating(None)

  predicate IsPasswordState(s: SessionState) {
    s.Authenticating? && s.username.Some?
  }

  predicate IsSessionTerminator(line: string) {
    Lower(Trim(line)) in {"quit", "exit", "bye", "disconnect"}
  }

  /** A credential the session lets through: trimmed, nonempty and no session terminator. */
  predicate Credential(s: string) {
    Trimmed(s) && s != [] && !IsSessionTerminator(s)
  }

  function HandleUsername(input: string): Transition {
    var trimmed := Trim(input);
    if IsSessionTerminator(trimmed) then Disconnect([Goodbye])
    else if trimmed == [] then Stay([EmptyUsername, UsernamePrompt])
    else Advance(Authenticating(Some(trimmed)), [PasswordPrompt])
  }

  function HandlePassword(username: string, input: string): Transition {
    var trimmed := Trim(input);
    if IsSessionTerminator(trimmed) then Disconnect([Goodbye])
    else if trimmed == [] then Stay([EmptyPassword, PasswordPrompt])
    else AuthPending(username, trimmed)
  }

  function HandleWorldSelection(worlds: seq<World>, input: string): Transition {
    var trimmed := Trim(input);
    if IsSessionTerminator(trimmed) then Disconnect([Goodbye])
    else if trimmed == [] then Stay([NonNumeric, WorldSelectPrompt(|worlds|)])
    else
      match ParseUsize(trimmed)
      case None => Stay([NonNumeric, WorldSelectPrompt(|worlds|)])
      case Some(n) =>
        match GetByPosition(worlds, n)
        case Some(world) => Disconnect([WorldSelected(world.name)])
        case None => Stay([OutOfRange(|worlds|), WorldSelectPrompt(|worlds|)])
  }

  function HandleInput(worlds: seq<World>, state: SessionState, input: string): Transition {
    match state
    case Authenticating(None) => HandleUsername(input)
    case Authenticating(Some(name)) => HandlePassword(name, input)
    case WorldSelection(_) => HandleWorldSelection(worlds, input)
  }

  /** The world menu: entry `i` shows the number `i + 1` and the world at that position. */
  function Menu(worlds: seq<World>): seq<MenuEntry> {
    seq(|worlds|, i requires 0 <= i < |worlds| => MenuEntry(Print(i + 1), worlds[i].name, worlds[i].description))
  }

  function CompleteAuth(worlds: seq<World>, result: Option<Account>): Transition {
    match result
    case Some(account) =>
      Advance(WorldSelection(account), [Welcome(account.username), WorldList(Menu(worlds)), WorldSelectPrompt(|worlds|)])
    case None => Advance(INITIAL, [AuthFailed, UsernamePrompt])
  }

  /** The menu shows every world's name and description, in order, beside its number. */
  lemma MenuShows(worlds: seq<World>)
    ensures |Menu(worlds)| == |worlds|
    ensures forall i :: 0 <= i < |worlds| ==>
              Menu(worlds)[i] == MenuEntry(Print(i + 1), worlds[i].name, worlds[i].description)
  {
  }

  method FormatWorldList(worlds: seq<World>) returns (entries: seq<MenuEntry>)
    ensures |entries| == |worlds|
    ensures forall i :: 0 <= i < |worlds| ==>
              entries[i].number == Print(i + 1) && entries[i].name == worlds[i].name && entries[i].description == worlds[i].description
    ensures entries == Menu(worlds)
  {
    entries := [];
    for i := 0 to |worlds|
      invariant entries == Menu(worlds)[..i]
    {
      entries := entries + [MenuEntry(Print(i + 1), worlds[i].name, worlds[i].description)];
    }
  }

  /** The session object: its state changes only when a transition is applied. */
  class Session {
    const worlds: seq<World>
    var state: SessionState

    constructor (worlds: seq<World>)
      ensures this.worlds == worlds && state == INITIAL
    {
      this.worlds := worlds;
      state := INITIAL;
    }

    method Apply(next: SessionState)
      modifies this
      ensures state == next
    {
      state := next;
    }

    method FinishAuth(result: Option<Account>) returns (t: Transition)
      ensures t == CompleteAuth(worlds, result)
    {
      match result
      case Some(account) =>
        var menu := FormatWorldList(worlds);
        t := Advance(WorldSelection(account), [Welcome(account.username), WorldList(menu), WorldSelectPrompt(|worlds|)]);
      case None =>
        t := Advance(INITIAL, [AuthFailed, UsernamePrompt]);
    }
  }

  // ---------- What a line can lead to ----------

  /** A line ends the session in every state exactly when it is, trimmed, one of four words in any mix of cases. */
  lemma FourWords(input: string)
    ensures IsSessionTerminator(input) <==>
            || SameButCase(Trim(input), "quit") || SameButCase(Trim(input), "exit")
            || SameButCase(Trim(input), "bye") || SameButCase(Trim(input), "disconnect")
  {
    LowerIsSmall(Trim(input), "quit");
    LowerIsSmall(Trim(input), "exit");
    LowerIsSmall(Trim(input), "bye");
    LowerIsSmall(Trim(input), "disconnect");
  }

  /** What is said to a line that leaves the session where it is. */
  lemma StayReplies(worlds: seq<World>, name: string, account: Account, input: string)
    requires !IsSessionTerminator(input)
    ensures Trim(input) == [] ==>
              && HandleInput(worlds, Authenticating(None), input) == Stay([EmptyUsername, UsernamePrompt])
              && HandleInput(worlds, Authenticating(Some(name)), input) == Stay([EmptyPassword, PasswordPrompt])
    ensures ParseUsize(Trim(input)) == None ==>
              HandleInput(worlds, WorldSelection(account), input) == Stay([NonNumeric, WorldSelectPrompt(|worlds|)])
    ensures var p := ParseUsize(Trim(input));
            p.Some? && (p.value == 0 || p.value > |worlds|) ==>
              HandleInput(worlds, WorldSelection(account), input) == Stay([OutOfRange(|worlds|), WorldSelectPrompt(|worlds|)])
  {
    TrimIsTrimmed(input);
    TrimIsIdempotent(Trim(input));
  }

  /** What an attempt leads to, by the store's answer. */
  lemma AuthReplies(worlds: seq<World>, account: Account)
    ensures CompleteAuth(worlds, None) == Advance(Authenticating(None), [AuthFailed, UsernamePrompt])
    ensures exists entries: seq<MenuEntry> ::
              && CompleteAuth(worlds, Some(account)) ==
                 Advance(WorldSelection(account), [Welcome(account.username), WorldList(entries), WorldSelectPrompt(|worlds|)])
              && |entries| == |worlds|
              && forall i :: 0 <= i < |worlds| ==>
                   entries[i] == MenuEntry(Print(i + 1), worlds[i].name, worlds[i].description)
  {
    MenuShows(worlds);
    assert CompleteAuth(worlds, Some(account)).output[1] == WorldList(Menu(worlds));
  }

  /** Case and surrounding white space do not matter to a session terminator. */
  lemma TerminatorsIgnoreCaseAndPadding(left: string, word: string, right: string)
    requires AllWhite(left) && AllWhite(right) && Trimmed(word) && word != []
    ensures IsSessionTerminator(left + word + right) <==> Lower(word) in {"quit", "exit", "bye", "disconnect"}
  {
    TrimRemovesPadding(left, word, right);
  }

  /** In every state a line says goodbye exactly when it is a session terminator. */
  lemma GoodbyeIsExact(worlds: seq<World>, state: SessionState, input: string)
    ensures HandleInput(worlds, state, input) == Disconnect([Goodbye]) <==> IsSessionTerminator(input)
  {
    TrimIsTrimmed(input);
    TrimIsIdempotent(Trim(input));
  }

  /** Only an accepted username advances the state, and it is stored trimmed. */
  lemma AdvanceIsAcceptedUsername(worlds: seq<World>, state: SessionState, input: string)
    ensures HandleInput(worlds, state, input).Advance? <==> state == INITIAL && Credential(Trim(input))
    ensures var t := HandleInput(worlds, state, input);
            t.Advance? ==> t == Advance(Authenticating(Some(Trim(input))), [PasswordPrompt])
  {
    TrimIsTrimmed(input);
  }

  /** Only an accepted password line asks for verification, of the stored username. */
  lemma PendingIsAcceptedPassword(worlds: seq<World>, state: SessionState, input: string)
    ensures HandleInput(worlds, state, input).AuthPending? <==> IsPasswordState(state) && Credential(Trim(input))
    ensures var t := HandleInput(worlds, state, input);
            t.AuthPending? ==> t == AuthPending(state.username.value, Trim(input))
  {
    TrimIsTrimmed(input);
  }

  lemma TerminatorFirstLetter(s: string)
    requires Trimmed(s) && IsSessionTerminator(s)
    ensures s != [] && LowerChar(s[0]) in {'q', 'e', 'b', 'd'}
  {
    TrimIsIdempotent(s);
    var l := Lower(s);
    assert l[0] in {'q', 'e', 'b', 'd'};
    assert l[0] == LowerChar(s[0]);
  }

  lemma TerminatorsAreNotNumbers(s: string)
    requires ParseUsize(s).Some?
    ensures !IsSessionTerminator(s)
  {
    assert forall i :: 0 <= i < |s| ==> (i == 0 && s[i] == '+') || IsDigit(s[i]) by {
      var digits := if s[0] == '+' then s[1..] else s;
      forall i | 0 <= i < |s|
        ensures (i == 0 && s[i] == '+') || IsDigit(s[i])
      {
        if s[0] == '+' && i > 0 {
          assert s[i] == digits[i - 1];
        }
      }
    }
    assert Trimmed(s) by {
      assert (s[0] == '+' || IsDigit(s[0])) && (s[|s| - 1] == '+' || IsDigit(s[|s| - 1]));
    }
    if IsSessionTerminator(s) {
      TerminatorFirstLetter(s);
    }
  }

  /** A line names a world exactly when it reads, trimmed, as that world's position. */
  lemma SelectionIsExact(worlds: seq<World>, account: Account, input: string, name: string)
    ensures HandleInput(worlds, WorldSelection(account), input) == Disconnect([WorldSelected(name)]) <==>
            exists n: nat :: 1 <= n <= |worlds| && ParseUsize(Trim(input)) == Some(n) && worlds[n - 1].name == name
  {
    var p := ParseUsize(Trim(input));
    if p.Some? {
      TerminatorsAreNotNumbers(Trim(input));
    }
  }

  /** A number outside the menu changes nothing but the output. */
  lemma OtherNumbersStay(worlds: seq<World>, account: Account, input: string)
    requires var p := ParseUsize(Trim(input)); p.Some? && (p.value == 0 || p.value > |worlds|)
    ensures HandleInput(worlds, WorldSelection(account), input) ==
            Stay([OutOfRange(|worlds|), WorldSelectPrompt(|worlds|)])
  {
    TerminatorsAreNotNumbers(Trim(input));
  }

  /** Typing the number printed beside a world, padded at will, ends the session naming that world. */
  lemma MenuRoundTrip(worlds: seq<World>, account: Account, i: nat, left: string, right: string)
    requires i < |worlds| <= USIZE_MAX && AllWhite(left) && AllWhite(right)
    ensures HandleInput(worlds, WorldSelection(account), left + Menu(worlds)[i].number + right) ==
            Disconnect([WorldSelected(Menu(worlds)[i].name)])
    ensures Menu(worlds)[i].name == worlds[i].name && Menu(worlds)[i].description == worlds[i].description
  {
    MenuShows(worlds);
    var number := Print(i + 1);
    NumeralIsTrimmed(i + 1);
    TrimRemovesPadding(left, number, right);
    ParseOfPrint(i + 1);
    TerminatorsAreNotNumbers(number);
  }

  /** Any printed number beyond the menu is refused, machine word or not. */
  lemma UnlistedNumeralsStay(worlds: seq<World>, account: Account, n: nat, left: string, right: string)
    requires (n == 0 || n > |worlds|) && AllWhite(left) && AllWhite(right)
    ensures HandleInput(worlds, WorldSelection(account), left + Print(n) + right).Stay?
  {
    NumeralIsTrimmed(n);
    TrimRemovesPadding(left, Print(n), right);
    ParseOfPrint(n);
    if n <= USIZE_MAX {
      OtherNumbersStay(worlds, account, left + Print(n) + right);
    } else {
      NumeralIsNoTerminator(n);
    }
  }

  lemma NumeralIsNoTerminator(n: nat)
    ensures !IsSessionTerminator(Print(n))
  {
    var s := Print(n);
    NumeralIsTrimmed(n);
    assert IsDigit(s[0]);
    if IsSessionTerminator(s) {
      TerminatorFirstLetter(s);
    }
  }
}
