/** `on_message` and the command handlers: which handler a message runs,
    and what `!add`, `!delete`, `!next` and `!help` do to the store and
    post in the channel. */
module Commands {
  import opened Wrappers
  import opened Text
  import opened Dates
  import opened DateText
  import opened Assoc
  import opened RecordStore
  import opened NextBirthday
  import opened Chat

  datatype Command = AddCmd | NextCmd | DeleteCmd | HelpCmd

  /** The command word each handler answers to. */
  function Keyword(c: Command): string {
    match c
    case AddCmd => "!add"
    case NextCmd => "!next"
    case DeleteCmd => "!delete"
    case HelpCmd => "!help"
  }

  /** The handlers `on_message` runs, in order: four independent tests of
      the lower-cased text against the command words. */
  function Triggered(text: string): (cmds: seq<Command>)
    ensures forall c :: c in cmds <==> StartsWith(Lower(text), Keyword(c))
  {
    var low := Lower(text);
    Runs(low, AddCmd) + Runs(low, NextCmd) + Runs(low, DeleteCmd) + Runs(low, HelpCmd)
  }

  /** One of the four tests: [c] when the text starts with c's word. */
  function Runs(low: string, c: Command): seq<Command> {
    if StartsWith(low, Keyword(c)) then [c] else []
  }

  /** No command word is a prefix of another, so a message runs at most one
      handler. */
  lemma AtMostOneCommand(text: string)
    ensures |Triggered(text)| <= 1
  {
    var low := Lower(text);
    forall c: Command, d: Command | c != d
      ensures !(StartsWith(low, Keyword(c)) && StartsWith(low, Keyword(d)))
    {
      KeywordsExclusive(low, c, d);
    }
  }

  /** Two different command words differ in their second character. */
  lemma KeywordsExclusive(low: string, c: Command, d: Command)
    requires c != d
    ensures !(StartsWith(low, Keyword(c)) && StartsWith(low, Keyword(d)))
  {
    var kc, kd := Keyword(c), Keyword(d);
    assert kc[1] != kd[1];
    assert !StartsWith(low, kc) || low[1] == low[..|kc|][1] == kc[1];
    assert !StartsWith(low, kd) || low[1] == low[..|kd|][1] == kd[1];
  }

  /** The test ignores ASCII case and anything after the command word. */
  lemma MixedCaseNext()
    ensures Triggered("!NeXt please") == [NextCmd]
  {
    var low := Lower("!NeXt please");
    assert low[0] == '!' && low[1] == 'n' && low[2] == 'e' && low[3] == 'x' && low[4] == 't';
    assert low[..5] == "!next";
  }

  /** A command word must open the message: text not starting with '!'
      runs no handler. */
  lemma CommandMustLead(text: string)
    requires text == [] || text[0] != '!'
    ensures Triggered(text) == []
  {
    var low := Lower(text);
    forall c: Command
      ensures !StartsWith(low, Keyword(c))
    {
      var kw := Keyword(c);
      assert kw[0] == '!';
      assert |low| < |kw| || low[..|kw|][0] != kw[0];
    }
  }

  const AddPrompt: string := "What is your birthday in the format DD/MM/YYYY?"
  const AddFormatError: string :=
    "An error occured, are you sure you entered your birthday in the correct format (DD/MM/YYYY)? Please start the process again with !add."

  function AddThanks(author: UserId, input: string): string {
    "Thanks " + Mention(author) + ", you entered " + input + ThanksTail
  }

  /** What follows the echoed input in the `!add` thanks. */
  const ThanksTail: string := ", this has been added to the birthday bot!"

  function DeletedMessage(author: UserId): string {
    "Congratulations " + Mention(author) + ", you have been deleted!"
  }

  /** What follows the mention in the `!help` reply. */
  const HelpTail: string :=
    ", you can add your own birthday by typing !add, and check who has the next birthday"
    + " by typing !next. You can also use !delete to remove yourself from the list. Hope this helps! :slight_smile:"

  function HelpMessage(author: UserId): string {
    "Hello " + Mention(author) + HelpTail
  }

  /** A handler's effect: the store afterwards, the messages posted, and
      the file contents written, if any. */
  datatype Outcome = Outcome(store: Store, sent: seq<Message>, saved: Option<RawFile>)

  /** `birthday_add`: ignore the bot's own message; otherwise prompt, take
      the author's next message `reply`, and either register it under the
      author's id (then save) or report the format error. */
  function AddCommand(s: Store, author: UserId, nick: string, fromBot: bool, reply: string): (r: Outcome)
    requires WellFormed(s)
    ensures WellFormed(r.store)
    ensures fromBot ==> r == Outcome(s, [], None)
    ensures !fromBot && ParseDmy(reply).None? ==>
      r == Outcome(s, [Plain(AddPrompt), Plain(AddFormatError)], None)
    ensures !fromBot && ParseDmy(reply).Some? ==>
      && r.store == Add(s, author, Record(nick, ParseDmy(reply).value))
      && r.sent == [Plain(AddPrompt), Plain(AddThanks(author, reply))]
      && r.saved == Some(Save(r.store))
  {
    if fromBot then Outcome(s, [], None)
    else match ParseDmy(reply)
      case None => Outcome(s, [Plain(AddPrompt), Plain(AddFormatError)], None)
      case Some(birth) =>
        var s' := Add(s, author, Record(nick, birth));
        AddWellFormed(s, author, Record(nick, birth));
        Outcome(s', [Plain(AddPrompt), Plain(AddThanks(author, reply))], Some(Save(s')))
  }

  /** A successful `!add` sets the author's record, keeps its position if
      the author was registered and appends it otherwise, and touches no
      other user's record; the store changes only when the reply parses. */
  lemma AddRegisters(s: Store, author: UserId, nick: string, fromBot: bool, reply: string)
    requires WellFormed(s)
    ensures var r := AddCommand(s, author, nick, fromBot, reply);
      && (r.store != s ==> !fromBot && ParseDmy(reply).Some?)
      && (!fromBot && ParseDmy(reply).Some? ==>
            && Find(r.store, author) == Some(Record(nick, ParseDmy(reply).value))
            && (forall k :: k != author ==> Find(r.store, k) == Find(s, k))
            && Keys(r.store) == (if author in Keys(s) then Keys(s) else Keys(s) + [author]))
  {
    var r := AddCommand(s, author, nick, fromBot, reply);
    if !fromBot && ParseDmy(reply).Some? {
      var rec := Record(nick, ParseDmy(reply).value);
      assert r.store == Add(s, author, rec);
    } else {
      assert r.store == s;
    }
  }

  /** `birthday_delete`: remove the author's own record, confirm and save;
      Failure where `del` raises KeyError (nothing posted, nothing saved). */
  function DeleteCommand(s: Store, author: UserId): (r: Result<Outcome, DictError<UserId>>)
    requires WellFormed(s)
    ensures r.Failure? <==> author !in Keys(s)
    ensures r.Success? ==>
      && WellFormed(r.value.store)
      && Find(r.value.store, author).None?
      && (forall k :: k != author ==> Find(r.value.store, k) == Find(s, k))
      && Keys(r.value.store) == Without(Keys(s), author)
      && r.value.sent == [Plain(DeletedMessage(author))]
      && r.value.saved == Some(Save(r.value.store))
  {
    match Delete(s, author)
    case Failure(e) => Failure(e)
    case Success(s') =>
      DeleteWellFormed(s, author);
      DeleteKeys(s, author);
      Success(Outcome(s', [Plain(DeletedMessage(author))], Some(Save(s'))))
  }

  /** Why a handler raised instead of answering. */
  datatype CommandError = NotRegistered | DateOutOfRangeForNext

  /** `on_message`: run the handler the text selects, if any. The four tests
      are independent, but AtMostOneCommand shows at most one can pass, so
      running the first selected handler is running them all. */
  function OnMessage(s: Store, text: string, author: UserId, nick: string, fromBot: bool,
                     reply: string, today: Date): (r: Result<Outcome, CommandError>)
    requires WellFormed(s) && ValidDate(today)
    ensures r.Success? ==> WellFormed(r.value.store)
    ensures Triggered(text) == [] ==> r == Success(Outcome(s, [], None))
    ensures r.Success? && r.value.store != s ==> AddCmd in Triggered(text) || DeleteCmd in Triggered(text)
  {
    var cmds := Triggered(text);
    if cmds == [] then Success(Outcome(s, [], None))
    else Handle(cmds[0], s, author, nick, fromBot, reply, today)
  }

  /** The handler for one command; only `!add` and `!delete` write. */
  function Handle(c: Command, s: Store, author: UserId, nick: string, fromBot: bool,
                  reply: string, today: Date): (r: Result<Outcome, CommandError>)
    requires WellFormed(s) && ValidDate(today)
    ensures r.Success? ==> WellFormed(r.value.store)
    ensures r.Success? && r.value.store != s ==> c == AddCmd || c == DeleteCmd
  {
    match c
    case AddCmd => Success(AddCommand(s, author, nick, fromBot, reply))
    case DeleteCmd =>
      (match DeleteCommand(s, author)
       case Failure(_) => Failure(NotRegistered)
       case Success(o) => Success(o))
    case HelpCmd => Success(Outcome(s, [Plain(HelpMessage(author))], None))
    case NextCmd =>
      (match NextReply(s, today)
       case Failure(_) => Failure(DateOutOfRangeForNext)
       case Success(text) => Success(Outcome(s, [Plain(text)], None)))
  }

  /** `!add` with an impossible date such as 31/02/2000 posts the error and
      leaves the store as it was. */
  lemma AddRejects31February(s: Store, author: UserId, nick: string)
    requires WellFormed(s)
    ensures AddCommand(s, author, nick, false, "31/02/2000") ==
      Outcome(s, [Plain(AddPrompt), Plain(AddFormatError)], None)
  {
    ParseDmyRejects31February();
  }

  /** After a successful `!add` and a restart, the saved file loads back to
      the same store. */
  lemma AddSurvivesRestart(s: Store, author: UserId, nick: string, reply: string)
    requires WellFormed(s) && ParseDmy(reply).Some?
    ensures var o := AddCommand(s, author, nick, false, reply);
      o.saved.Some? && Load(o.saved.value) == Success(o.store)
  {
    LoadSave(AddCommand(s, author, nick, false, reply).store);
  }
}
