/** The bot's `birthday_dict`: an insertion-ordered dictionary from user id
    to `{username, birth_date}`, and the text form it is persisted in. */
module RecordStore {
  import opened Wrappers
  import opened Seqs
  import opened Dates
  import opened DateText
  import opened Assoc

  /** `str(message.author.id)`. */
  type UserId = string

  /** One registered birthday; `username` is the author's server nickname
      at registration time. */
  datatype Record = Record(username: string, birthDate: Date)

  /** The store, in insertion order. */
  type Store = seq<(UserId, Record)>

  /** A store the bot can hold: one entry per user, every date a real one. */
  predicate WellFormed(s: Store) {
    DistinctKeys(s) && forall i :: 0 <= i < |s| ==> ValidDate(s[i].1.birthDate)
  }

  /** Registering keeps the store well-formed. */
  lemma AddWellFormed(s: Store, k: UserId, r: Record)
    requires WellFormed(s) && ValidDate(r.birthDate)
    ensures WellFormed(Add(s, k, r))
  {
    AddDistinct(s, k, r);
    var s' := Add(s, k, r);
    if k in Keys(s) {
      var i := FindEntry(s, k);
      AddInPlace(s, k, r, i);
      forall j | 0 <= j < |s'|
        ensures ValidDate(s'[j].1.birthDate)
      {
        assert s'[j] == if j == i then (k, r) else s[j];
      }
    } else {
      AddAppends(s, k, r);
      AppendOne(s, (k, r));
      forall j | 0 <= j < |s'|
        ensures ValidDate(s'[j].1.birthDate)
      {
        assert s'[j] == if j < |s| then s[j] else (k, r);
      }
    }
    assert DistinctKeys(s');
  }

  /** Deleting keeps the store well-formed. */
  lemma DeleteWellFormed(s: Store, k: UserId)
    requires WellFormed(s) && k in Keys(s)
    ensures Delete(s, k).Success? && WellFormed(Delete(s, k).value)
  {
    DeleteKeys(s, k);
    var s' := Delete(s, k).value;
    forall i | 0 <= i < |s'|
      ensures ValidDate(s'[i].1.birthDate)
    {
      FindOfDistinct(s', i);
      assert s'[i].0 != k;
      var j := FindEntry(s, s'[i].0);
    }
  }

  /** A store entry as the JSON file holds it: the date as text. */
  datatype RawRecord = RawRecord(username: string, birthDate: string)

  /** The JSON object's members in file order. */
  type RawFile = seq<(UserId, RawRecord)>

  /** The persisted date of the named user could not be read. */
  datatype LoadError = CorruptDate(key: UserId, text: string)

  /** The conversion loop before `json.dump`: every date to its text. */
  function Save(s: Store): (raw: RawFile)
    requires WellFormed(s)
    ensures |raw| == |s|
    ensures forall i :: 0 <= i < |s| ==>
      raw[i] == (s[i].0, RawRecord(s[i].1.username, FormatStored(s[i].1.birthDate)))
  {
    if s == [] then []
    else
      var raw := [(s[0].0, RawRecord(s[0].1.username, FormatStored(s[0].1.birthDate)))] + Save(s[1..]);
      assert forall i :: 1 <= i < |s| ==> raw[i] == Save(s[1..])[i - 1];
      raw
  }

  /** `json.load`: a repeated member keeps its first position and its last
      value, as assignments into a dict do. */
  function Collapse(raw: RawFile): (s: RawFile)
    decreases |raw|
  {
    if raw == [] then [] else Add(Collapse(raw[..|raw| - 1]), raw[|raw| - 1].0, raw[|raw| - 1].1)
  }

  /** Apply a parser to every element in order; the first element it
      refuses is the failure. */
  function ParseEach<E, R>(f: E -> Option<R>, es: seq<E>): (r: Result<seq<R>, E>)
    ensures r.Success? ==> |r.value| == |es| && forall i :: 0 <= i < |es| ==> f(es[i]) == Some(r.value[i])
    ensures r.Failure? <==> exists i :: 0 <= i < |es| && f(es[i]).None?
    ensures r.Failure? ==> r.error in es && f(r.error).None?
  {
    if es == [] then Success([])
    else match f(es[0])
      case None => Failure(es[0])
      case Some(y) =>
        match ParseEach(f, es[1..])
        case Failure(e) => Failure(e)
        case Success(rest) =>
          var ys := [y] + rest;
          assert forall i :: 1 <= i < |es| ==> es[i] == es[1..][i - 1] && ys[i] == rest[i - 1];
          Success(ys)
  }

  /** One member's date parsed, its id and name kept. */
  function ParseEntry(e: (UserId, RawRecord)): Option<(UserId, Record)> {
    match ParseStored(e.1.birthDate)
    case None => None
    case Some(d) => Some((e.0, Record(e.1.username, d)))
  }

  /** The loop after `json.load`: parse every date; one unreadable date
      fails the whole load. */
  function ParseAll(raw: RawFile): (r: Result<Store, LoadError>)
    ensures r.Success? ==> |r.value| == |raw|
    ensures r.Success? ==> forall i :: 0 <= i < |raw| ==>
      r.value[i].0 == raw[i].0 && r.value[i].1.username == raw[i].1.username
      && Some(r.value[i].1.birthDate) == ParseStored(raw[i].1.birthDate)
    ensures r.Failure? <==> exists i :: 0 <= i < |raw| && ParseStored(raw[i].1.birthDate).None?
  {
    match ParseEach(ParseEntry, raw)
    case Failure(e) => Failure(CorruptDate(e.0, e.1.birthDate))
    case Success(s) => Success(s)
  }

  /** Reading the saved file at startup. */
  function Load(raw: RawFile): Result<Store, LoadError> {
    ParseAll(Collapse(raw))
  }

  /** Merging repeated members leaves one entry per id. */
  lemma {:induction false} CollapseDistinctKeys(raw: RawFile)
    ensures DistinctKeys(Collapse(raw))
    decreases |raw|
  {
    if raw != [] {
      CollapseDistinctKeys(raw[..|raw| - 1]);
      AddDistinct(Collapse(raw[..|raw| - 1]), raw[|raw| - 1].0, raw[|raw| - 1].1);
    }
  }

  /** A file that loads gives a well-formed store: the base case of the
      invariant every command keeps. */
  lemma LoadWellFormed(raw: RawFile)
    ensures Load(raw).Success? ==> WellFormed(Load(raw).value)
  {
    var c := Collapse(raw);
    var r := ParseAll(c);
    if r.Success? {
      CollapseDistinctKeys(raw);
      var s := r.value;
      forall i, j | 0 <= i < j < |s|
        ensures s[i].0 != s[j].0
      {
        assert s[i].0 == c[i].0 && s[j].0 == c[j].0;
      }
      forall i | 0 <= i < |s|
        ensures ValidDate(s[i].1.birthDate)
      {
        assert Some(s[i].1.birthDate) == ParseStored(c[i].1.birthDate);
      }
    }
  }

  /** Collapsing a file with distinct keys changes nothing. */
  lemma {:induction false} CollapseDistinct(raw: RawFile)
    requires DistinctKeys(raw)
    ensures Collapse(raw) == raw
    decreases |raw|
  {
    if raw != [] {
      var init, last := raw[..|raw| - 1], raw[|raw| - 1];
      DistinctInit(raw);
      CollapseDistinct(init);
      assert last.0 !in Keys(init) by {
        forall i | 0 <= i < |init|
          ensures Keys(init)[i] != last.0
        {
          assert Keys(init)[i] == raw[i].0;
        }
      }
      AddAppends(init, last.0, last.1);
      InitLast(raw);
    }
  }

  lemma DistinctInit<K, V>(s: seq<(K, V)>)
    requires DistinctKeys(s) && s != []
    ensures DistinctKeys(s[..|s| - 1])
  {
    var init := s[..|s| - 1];
    forall i, j | 0 <= i < j < |init|
      ensures init[i].0 != init[j].0
    {
      assert init[i] == s[i] && init[j] == s[j];
    }
  }

  /** Saving and loading again gives back the same store, order included. */
  lemma LoadSave(s: Store)
    requires WellFormed(s)
    ensures Load(Save(s)) == Success(s)
  {
    var raw := Save(s);
    SaveDistinct(s);
    CollapseDistinct(raw);
    ParseAllSave(s);
  }

  lemma SaveDistinct(s: Store)
    requires WellFormed(s)
    ensures DistinctKeys(Save(s))
  {
    var raw := Save(s);
    forall i, j | 0 <= i < j < |raw|
      ensures raw[i].0 != raw[j].0
    {
      assert raw[i].0 == s[i].0 && raw[j].0 == s[j].0;
    }
  }

  lemma ParseAllSave(s: Store)
    requires WellFormed(s)
    ensures ParseAll(Save(s)) == Success(s)
  {
    var raw := Save(s);
    SavedDatesParse(s);
    var r := ParseAll(raw);
    assert r.Success?;
    ParsedIsOriginal(s, r.value);
  }

  lemma SavedDatesParse(s: Store)
    requires WellFormed(s)
    ensures forall i :: 0 <= i < |s| ==>
      ParseStored(Save(s)[i].1.birthDate) == Some(s[i].1.birthDate)
  {
    forall i | 0 <= i < |s|
      ensures ParseStored(Save(s)[i].1.birthDate) == Some(s[i].1.birthDate)
    {
      ParseFormatStored(s[i].1.birthDate);
    }
  }

  lemma ParsedIsOriginal(s: Store, t: Store)
    requires |t| == |s|
    requires forall i :: 0 <= i < |s| ==>
      t[i].0 == s[i].0 && t[i].1.username == s[i].1.username && t[i].1.birthDate == s[i].1.birthDate
    ensures t == s
  {
    forall i | 0 <= i < |s|
      ensures t[i] == s[i]
    {
      assert t[i].1 == s[i].1;
    }
  }
}
