/**
 * Memory management: each turn is classified as an update of the latest
 * fact, a new fact, or no write at all, by looking for fixed keywords in
 * the input. Exactly one change-log entry is produced per turn.
 */
module Classification {
  import opened Text
  import opened Store

  /** Inputs containing one of these state a new fact. */
  const NewKeywords: seq<string> :=
    ["名字", "叫", "喜欢", "养了", "住在", "工作", "下班", "爱好", "擅长", "学习"]

  /** Inputs containing one of these correct the latest fact. */
  const EditKeywords: seq<string> :=
    ["改成", "其实", "不对", "更新", "变成", "现在是", "已经"]

  /** The characters stripped from both ends of a stored fact. */
  const StripChars: set<char> := {'。', '！', '？'}

  const NoopMessage: string := "本轮对话为闲聊，无需写入记忆库。"

  datatype Kind = New | Update | Noop

  datatype Change = Change(kind: Kind, content: string)

  /** `any(k in user_input for k in keywords)`. */
  predicate MentionsAny(keywords: seq<string>, input: string) {
    exists k :: k in keywords && IsSubstring(k, input)
  }

  predicate IsEdit(input: string) {
    MentionsAny(EditKeywords, input)
  }

  predicate IsNew(input: string) {
    MentionsAny(NewKeywords, input)
  }

  /** An edit wins over a new fact, but only when there is a fact to edit. */
  function Decide(input: string, storeNonEmpty: bool): (k: Kind)
    ensures k == Update <==> IsEdit(input) && storeNonEmpty
    ensures k == New <==> IsNew(input) && !(IsEdit(input) && storeNonEmpty)
  {
    if IsEdit(input) && storeNonEmpty then Update
    else if IsNew(input) then New
    else Noop
  }

  /** The text a turn stores: the input without 。！？ at either end. */
  function NewFact(input: string): (f: string)
    ensures f != [] ==> f[0] !in StripChars && f[|f| - 1] !in StripChars
    ensures StrippedAt(input, f, StripChars, LeadRun(input, StripChars))
  {
    Strip(input, StripChars)
  }

  /**
   * The stored text drops every 。！？ run at the start and at the end of
   * the input, and nothing else.
   */
  lemma MarksStrippedFromBothEnds(pre: string, fact: string, post: string)
    requires forall k :: 0 <= k < |pre| ==> pre[k] in StripChars
    requires forall k :: 0 <= k < |post| ==> post[k] in StripChars
    requires fact != [] && fact[0] !in StripChars && fact[|fact| - 1] !in StripChars
    ensures NewFact(pre + fact + post) == fact
  {
    StripSurrounded(pre, fact, post, StripChars);
  }

  function UpdateContent(oldFact: string, newFact: string): string {
    "旧：" + oldFact + "  →  新：" + newFact
  }

  /**
   * The store after a write of the given kind. The store never shrinks,
   * stays normalised and keeps every fact but the last; an update rewrites
   * only the last fact, a new fact is appended, and otherwise nothing changes.
   */
  function Apply(db: seq<Entry>, kind: Kind, fact: string): (r: seq<Entry>)
    requires AllRecords(db) && (kind == Update ==> db != [])
    ensures AllRecords(r)
    ensures |db| <= |r| <= |db| + 1
    ensures forall k :: 0 <= k < |db| - 1 ==> r[k] == db[k]
    ensures kind == Update ==> |r| == |db| && r[|db| - 1] == Record(fact)
    ensures kind == New ==> |r| == |db| + 1 && r[..|db|] == db && r[|db|] == Record(fact)
    ensures kind == Noop ==> r == db
  {
    match kind
    case Update => db[|db| - 1 := Record(fact)]
    case New => db + [Record(fact)]
    case Noop => db
  }

  /** The store after the turn's write: the decided kind applied with the stripped input. */
  function Written(db: seq<Entry>, input: string): (r: seq<Entry>)
    requires AllRecords(db)
    ensures AllRecords(r)
    ensures |db| <= |r| <= |db| + 1
    ensures forall k :: 0 <= k < |db| - 1 ==> r[k] == db[k]
  {
    Apply(db, Decide(input, db != []), NewFact(input))
  }

  /**
   * The turn's change-log entry: the old and the new text for an update,
   * the stored text for a new fact, the fixed message otherwise.
   */
  function Logged(db: seq<Entry>, input: string): (c: Change)
    requires AllRecords(db)
    ensures c.kind == Decide(input, db != [])
    ensures c.kind == Update ==> db != [] && c.content == UpdateContent(db[|db| - 1].fact, NewFact(input))
    ensures c.kind == New ==> c.content == NewFact(input)
    ensures c.kind == Noop ==> c.content == NoopMessage
  {
    match Decide(input, db != [])
    case Update => Change(Update, UpdateContent(db[|db| - 1].fact, NewFact(input)))
    case New => Change(New, NewFact(input))
    case Noop => Change(Noop, NoopMessage)
  }

  // ---------------------------------------------------------------------
  // Properties of the classification.

  /** A keyword whose first character is missing from the input is not in it. */
  lemma AbsentHead(k: string, input: string)
    requires |k| > 0 && k[0] !in input
    ensures !IsSubstring(k, input)
  {
    if IsSubstring(k, input) {
      SubstringHead(k, input);
    }
  }

  /** No keyword list matches an input that holds none of the keywords' first characters. */
  lemma NoKeywordMatches(keywords: seq<string>, input: string)
    requires forall i :: 0 <= i < |keywords| ==> |keywords[i]| > 0 && keywords[i][0] !in input
    ensures !MentionsAny(keywords, input)
  {
    forall i | 0 <= i < |keywords| ensures !IsSubstring(keywords[i], input) {
      AbsentHead(keywords[i], input);
    }
  }

  /** The empty input triggers nothing: it is a no-op on any store. */
  lemma EmptyInputIsNoop(db: seq<Entry>)
    requires AllRecords(db)
    ensures Decide("", db != []) == Noop
    ensures Written(db, "") == db
  {
    NoKeywordMatches(EditKeywords, "");
    NoKeywordMatches(NewKeywords, "");
  }

  /**
   * An edit keyword on an empty store does not update: with a new-fact
   * keyword beside it the turn appends, and without one it is a no-op.
   */
  lemma EditOnEmptyStore(input: string)
    requires IsEdit(input)
    ensures Decide(input, false) == (if IsNew(input) then New else Noop)
    ensures Written([], input) == (if IsNew(input) then [Record(NewFact(input))] else [])
  {
  }

  /** Repeating a no-op turn is still a no-op and still leaves the store alone. */
  lemma NoopTwice(db: seq<Entry>, input: string)
    requires AllRecords(db) && Decide(input, db != []) == Noop
    ensures Written(Written(db, input), input) == db
    ensures Logged(Written(db, input), input) == Logged(db, input) == Change(Noop, NoopMessage)
  {
  }

  /** Repeating an update turn leaves the store as the first update left it. */
  lemma UpdateTwice(db: seq<Entry>, input: string)
    requires AllRecords(db) && Decide(input, db != []) == Update
    ensures Written(Written(db, input), input) == Written(db, input)
  {
  }

  // ---------------------------------------------------------------------
  // Worked turns.

  /** Chit-chat on an empty store: nothing is written. */
  lemma GreetingIsNoop()
    ensures Decide("你好", false) == Noop
    ensures Written([], "你好") == []
    ensures Logged([], "你好") == Change(Noop, NoopMessage)
  {
    NoKeywordMatches(EditKeywords, "你好");
    NoKeywordMatches(NewKeywords, "你好");
  }

  /** A name on an empty store is recorded as a new fact. */
  lemma NameIsNewFact()
    ensures Written([], "我叫小明") == [Record("我叫小明")]
    ensures Logged([], "我叫小明") == Change(New, "我叫小明")
  {
    var input := "我叫小明";
    NoKeywordMatches(EditKeywords, input);
    assert input[1..2] == NewKeywords[1];
    OccursIsSubstring(NewKeywords[1], input, 1);
    StripKeeps(input, StripChars);
  }

  /** A correction rewrites the latest fact and logs the old and the new text. */
  lemma CorrectionUpdatesLastFact()
    ensures Written([Record("我叫小明")], "其实我叫小华") == [Record("其实我叫小华")]
    ensures Logged([Record("我叫小明")], "其实我叫小华")
              == Change(Update, UpdateContent("我叫小明", "其实我叫小华"))
  {
    var input := "其实我叫小华";
    assert IsEdit(input) by {
      assert input[0..2] == EditKeywords[1];
      OccursIsSubstring(EditKeywords[1], input, 0);
    }
    assert NewFact(input) == input by {
      StripKeeps(input, StripChars);
    }
  }
}
