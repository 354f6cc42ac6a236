/**
  A keyword-triggered reply rule (the `Action` class of src/actions/action.py).

  A rule holds a list of keywords, each compiled into the regular expression
  `\b<keyword>\b` with the IGNORECASE flag, an optional responder callback and a
  pool of canned answers, and an admin-only flag. `ShouldTrigger` decides whether
  an incoming message fires the rule and returns the match; `Act` produces the
  replies.

  The regular-expression engine is replaced by an exact account of what a
  word-bounded, case-insensitive pattern around a LITERAL keyword means: word
  characters are ASCII letters, digits and `_`, and case folding is ASCII.
*/
module Actions {

  datatype Option<+T> = None | Some(value: T)

  /** The one failure `Act` can raise itself: `random.choice` of an empty pool (an IndexError). */
  datatype Error = EmptyPool

  datatype Result<+T> = Ok(value: T) | Err(error: Error)

  /** The sender of a message; only `isAdmin` is consulted by the rule. */
  datatype User = User(id: int, isAdmin: bool)

  /** One reply fragment. */
  type Reply = string

  // ---------------------------------------------------------------------------
  // Characters: `\w` and IGNORECASE, restricted to ASCII
  // ---------------------------------------------------------------------------

  /** A character of the `\w` class: an ASCII letter, digit or underscore. */
  predicate IsWordChar(c: char) {
    ('a' <= c <= 'z') || ('A' <= c <= 'Z') || ('0' <= c <= '9') || c == '_'
  }

  /** ASCII case folding: upper-case letters become lower-case, all else stays. */
  function Fold(c: char): (r: char) {
    if 'A' <= c <= 'Z' then (c as int - 'A' as int + 'a' as int) as char else c
  }

  /** Case folding never turns a word character into a non-word one or back. */
  lemma FoldKeepsWordChar(c: char)
    ensures IsWordChar(Fold(c)) == IsWordChar(c)
  {
  }

  /** Equality of two characters, under case folding when `ignoreCase` is set. */
  predicate SameChar(ignoreCase: bool, a: char, b: char) {
    if ignoreCase then Fold(a) == Fold(b) else a == b
  }

  /** Equality of two strings character by character, in the sense of `SameChar`. */
  predicate SameText(ignoreCase: bool, a: string, b: string) {
    |a| == |b| && forall i :: 0 <= i < |a| ==> SameChar(ignoreCase, a[i], b[i])
  }

  /** The character at position `i` is a word character; positions outside `s` read as non-word. */
  predicate WordAt(s: string, i: int) {
    0 <= i < |s| && IsWordChar(s[i])
  }

  /** `\b` holds at position `i`: exactly one of the characters on either side of it is a word character. */
  predicate IsBoundary(s: string, i: int) {
    WordAt(s, i - 1) != WordAt(s, i)
  }

  // ---------------------------------------------------------------------------
  // Compiled patterns
  // ---------------------------------------------------------------------------

  /** A character with a special meaning in a regular expression. */
  predicate IsMetacharacter(c: char) {
    c == '.' || c == '^' || c == '$' || c == '*' || c == '+' || c == '?' || c == '{' || c == '}'
    || c == '[' || c == ']' || c == '\\' || c == '|' || c == '(' || c == ')'
  }

  /** A keyword that stands for itself inside a regular expression: ASCII, no metacharacter. */
  predicate IsLiteral(keyword: string) {
    forall c <- keyword :: c as int < 128 && !IsMetacharacter(c)
  }

  /**
    A compiled word-bounded pattern `\b<keyword>\b`: the keyword and whether the
    IGNORECASE flag was given. The two `\b` assertions around the keyword are not
    stored as text; `MatchesAt` checks them as boundaries on both sides of the keyword.
  */
  datatype Pattern = Pattern(keyword: string, ignoreCase: bool)

  /** A pattern around a literal keyword, the only kind the model gives a meaning to. */
  predicate Supported(p: Pattern) {
    IsLiteral(p.keyword)
  }

  /**
    `re.compile(r'\b{}\b'.format(keyword), re.IGNORECASE)`: the keyword, unchanged,
    in a word-bounded pattern compiled case-insensitively. What such a pattern
    matches is stated by `KeywordCaseIrrelevant`, `StandaloneWordMatches` and
    `EmbeddedWordDoesNotMatch`.
  */
  function Compile(keyword: string): (p: Pattern)
    ensures p.keyword == keyword
    ensures p.ignoreCase
  {
    Pattern(keyword, true)
  }

  // ---------------------------------------------------------------------------
  // Matching: `re.search` for a supported pattern
  // ---------------------------------------------------------------------------

  /** A successful search: the pattern, where the match starts, and the matched slice of the message. */
  datatype Match = Match(pattern: Pattern, start: nat, text: string)

  /**
    The pattern matches the message at position `i`: the keyword fits there, equals
    the message's slice (ignoring case under IGNORECASE), and `\b` holds on both sides.
  */
  predicate MatchesAt(p: Pattern, s: string, i: int)
    requires Supported(p)
  {
    var k := p.keyword;
    0 <= i && i + |k| <= |s| && IsBoundary(s, i) && IsBoundary(s, i + |k|)
    && SameText(p.ignoreCase, s[i..i + |k|], k)
  }

  /** The pattern matches somewhere in the message. */
  ghost predicate Occurs(p: Pattern, s: string)
    requires Supported(p)
  {
    exists i :: MatchesAt(p, s, i)
  }

  /** `m` describes a match of `p` in `s`: it names `p`, holds at its start, and carries the matched slice. */
  ghost predicate IsMatch(p: Pattern, s: string, m: Match)
    requires Supported(p)
  {
    m.pattern == p && MatchesAt(p, s, m.start) && m.text == s[m.start..m.start + |p.keyword|]
  }

  /** The first match of `p` in `s` starting at or after position `from`. */
  function SearchFrom(p: Pattern, s: string, from: nat): (r: Option<Match>)
    requires Supported(p) && from <= |s|
    ensures r.Some? ==> from <= r.value.start && IsMatch(p, s, r.value)
    ensures r.Some? ==> forall i :: from <= i < r.value.start ==> !MatchesAt(p, s, i)
    ensures r.None? ==> forall i :: from <= i ==> !MatchesAt(p, s, i)
    decreases |s| - from
  {
    if MatchesAt(p, s, from) then Some(Match(p, from, s[from..from + |p.keyword|]))
    else if from == |s| then None
    else SearchFrom(p, s, from + 1)
  }

  /**
    `pattern.search(msg)`: the leftmost match of the pattern anywhere in the
    message, or None when it matches nowhere.
  */
  function Search(p: Pattern, s: string): (r: Option<Match>)
    requires Supported(p)
    ensures r.Some? <==> Occurs(p, s)
    ensures r.Some? ==> IsMatch(p, s, r.value)
    ensures r.Some? ==> forall i :: 0 <= i < r.value.start ==> !MatchesAt(p, s, i)
  {
    SearchFrom(p, s, 0)
  }

  /** Conversely, a position where the pattern matches and before which it matches nowhere is the one `Search` reports. */
  lemma SearchFindsLeftmost(p: Pattern, s: string, i: nat)
    requires Supported(p) && MatchesAt(p, s, i)
    requires forall j :: 0 <= j < i ==> !MatchesAt(p, s, j)
    ensures Search(p, s) == Some(Match(p, i, s[i..i + |p.keyword|]))
  {
    var r := Search(p, s);
    assert r.Some?;
    assert !(r.value.start < i) && !(i < r.value.start);
  }

  /** Under IGNORECASE the outcome of a search does not depend on the case of the message. */
  lemma SearchIgnoresCase(p: Pattern, s: string, t: string)
    requires Supported(p) && p.ignoreCase && SameText(true, s, t)
    ensures Search(p, s).Some? <==> Search(p, t).Some?
    ensures Search(p, s).Some? ==> Search(p, s).value.start == Search(p, t).value.start
  {
    forall i: int | 0 <= i <= |s|
      ensures WordAt(s, i) == WordAt(t, i)
    {
      if i < |s| {
        FoldKeepsWordChar(s[i]);
        FoldKeepsWordChar(t[i]);
      }
    }
    forall i: int
      ensures MatchesAt(p, s, i) == MatchesAt(p, t, i)
    {
      var k := p.keyword;
      if 0 <= i && i + |k| <= |s| {
        assert WordAt(s, i - 1) == WordAt(t, i - 1) && WordAt(s, i + |k|) == WordAt(t, i + |k|);
        var ss, tt := s[i..i + |k|], t[i..i + |k|];
        assert forall j :: 0 <= j < |k| ==> Fold(ss[j]) == Fold(tt[j]);
      }
    }
  }

  /**
    Under IGNORECASE the case of the keyword does not matter either: keywords that
    agree up to case ("HELLO", "hello") are found at the same place in every message.
  */
  lemma KeywordCaseIrrelevant(k1: string, k2: string, s: string)
    requires IsLiteral(k1) && IsLiteral(k2) && SameText(true, k1, k2)
    ensures Search(Compile(k1), s).Some? <==> Search(Compile(k2), s).Some?
    ensures Search(Compile(k1), s).Some? ==> Search(Compile(k1), s).value.start == Search(Compile(k2), s).value.start
  {
    var p1, p2 := Compile(k1), Compile(k2);
    forall i: int
      ensures MatchesAt(p1, s, i) == MatchesAt(p2, s, i)
    {
      if 0 <= i && i + |k1| <= |s| {
        assert forall j :: 0 <= j < |k1| ==> Fold(k1[j]) == Fold(k2[j]);
      }
    }
  }

  /**
    Word-boundary precision, positive half: a literal keyword that begins and ends
    with a word character is found when it stands in the message as a word of its
    own, with no word character right before or right after it.
  */
  lemma StandaloneWordMatches(k: string, before: string, after: string)
    requires IsLiteral(k) && |k| > 0 && IsWordChar(k[0]) && IsWordChar(k[|k| - 1])
    requires before == [] || !IsWordChar(before[|before| - 1])
    requires after == [] || !IsWordChar(after[0])
    ensures Search(Compile(k), before + k + after).Some?
    ensures Search(Compile(k), before + k + after).value.start <= |before|
  {
    var p, s := Compile(k), before + k + after;
    assert s[|before|..|before| + |k|] == k;
    assert s[|before|] == k[0] && s[|before| + |k| - 1] == k[|k| - 1];
    assert |before| + |k| < |s| ==> s[|before| + |k|] == after[0];
    assert 0 < |before| ==> s[|before| - 1] == before[|before| - 1];
    assert MatchesAt(p, s, |before|);
  }

  /**
    Word-boundary precision, negative half: a keyword that starts (ends) with a word
    character does not match where the message has a word character right before
    (right after) it, as inside a longer word.
  */
  lemma EmbeddedWordDoesNotMatch(k: string, s: string, i: int)
    requires IsLiteral(k) && |k| > 0
    requires (0 < i <= |s| && IsWordChar(s[i - 1]) && IsWordChar(k[0]))
          || (0 <= i && i + |k| < |s| && IsWordChar(s[i + |k|]) && IsWordChar(k[|k| - 1]))
    ensures !MatchesAt(Compile(k), s, i)
  {
    var p := Compile(k);
    if MatchesAt(p, s, i) {
      var slice := s[i..i + |k|];
      assert Fold(slice[0]) == Fold(k[0]) && Fold(slice[|k| - 1]) == Fold(k[|k| - 1]);
      FoldKeepsWordChar(slice[0]);
      FoldKeepsWordChar(k[0]);
      FoldKeepsWordChar(slice[|k| - 1]);
      FoldKeepsWordChar(k[|k| - 1]);
      assert false;
    }
  }

  // ---------------------------------------------------------------------------
  // First keyword wins
  // ---------------------------------------------------------------------------

  /**
    The match reported for a list of patterns: that of the first pattern, in list
    order, that matches anywhere in the message. None exactly when no pattern
    matches; otherwise it is the search result of some pattern `j` and no pattern
    before `j` matches.
  */
  function FirstMatch(ps: seq<Pattern>, s: string): (r: Option<Match>)
    requires forall p <- ps :: Supported(p)
    ensures r.None? <==> forall j :: 0 <= j < |ps| ==> !Occurs(ps[j], s)
    ensures r.Some? ==> exists j :: 0 <= j < |ps| && r == Search(ps[j], s) && forall i :: 0 <= i < j ==> !Occurs(ps[i], s)
  {
    if ps == [] then None
    else
      var head := Search(ps[0], s);
      if head.Some? then head
      else
        var rest := FirstMatch(ps[1..], s);
        assert forall j :: 1 <= j < |ps| ==> ps[j] == ps[1..][j - 1];
        rest
  }

  /** A pattern that matches while every earlier one does not is the one whose match is reported. */
  lemma {:induction false} FirstMatchAt(ps: seq<Pattern>, s: string, j: nat)
    requires forall p <- ps :: Supported(p)
    requires j < |ps| && Occurs(ps[j], s)
    requires forall i :: 0 <= i < j ==> !Occurs(ps[i], s)
    ensures FirstMatch(ps, s) == Search(ps[j], s)
  {
    if j > 0 {
      assert !Occurs(ps[0], s);
      assert forall i :: 0 <= i < j - 1 ==> ps[1..][i] == ps[i + 1];
      FirstMatchAt(ps[1..], s, j - 1);
    }
  }

  // ---------------------------------------------------------------------------
  // The rule
  // ---------------------------------------------------------------------------

  /** A computed responder: called with the user, the message and the match, it yields the replies. */
  type Responder = (User, string, Match) -> seq<Reply>

  /**
    A configured rule. Every field is a constant: the rule is read-only after
    construction, so `ShouldTrigger` and `Act` cannot change it.
  */
  class Action {
    const name: string
    const keywords: seq<Pattern>
    const action: Option<Responder>
    const multipleAnswers: seq<Reply>
    const requiresAdmin: bool

    /** Every compiled keyword wraps a literal keyword, the only kind the model gives a meaning to. */
    ghost predicate Valid() {
      forall p <- keywords :: Supported(p)
    }

    /** The rule is admin-only and the user is not an admin. */
    predicate Gated(user: User) {
      requiresAdmin && !user.isAdmin
    }

    /**
      Stores the name, compiles every keyword in order into `\b<keyword>\b` with
      IGNORECASE, and stores the responder, the answer pool and the admin flag
      unchanged. The rule is `Valid` exactly when every keyword is literal.
    */
    constructor (name: string, keywords: seq<string>, action: Option<Responder> := None,
                 multipleAnswers: seq<Reply> := [], requiresAdmin: bool := false)
      ensures this.name == name
      ensures |this.keywords| == |keywords|
      ensures forall i :: 0 <= i < |keywords| ==> this.keywords[i] == Compile(keywords[i])
      ensures this.action == action && this.multipleAnswers == multipleAnswers
      ensures this.requiresAdmin == requiresAdmin
      ensures Valid() <==> forall i :: 0 <= i < |keywords| ==> IsLiteral(keywords[i])
    {
      this.name := name;
      var compiled: seq<Pattern> := [];
      for i := 0 to |keywords|
        invariant |compiled| == i
        invariant forall j :: 0 <= j < i ==> compiled[j] == Compile(keywords[j])
      {
        compiled := compiled + [Compile(keywords[i])];
      }
      this.keywords := compiled;
      this.action := action;
      this.multipleAnswers := multipleAnswers;
      this.requiresAdmin := requiresAdmin;
      new;
      forall i | 0 <= i < |keywords|
        ensures Supported(this.keywords[i]) == IsLiteral(keywords[i])
      {
        assert this.keywords[i].keyword == keywords[i];
      }
    }

    /**
      `should_trigger`: an admin-only rule never fires for a non-admin user, whatever
      the message. Otherwise the keywords are tried in order and the match of the
      first one found anywhere in the message is returned; None if none is found.
    */
    method ShouldTrigger(user: User, msg: string) returns (m: Option<Match>)
      requires Valid()
      ensures Gated(user) ==> m == None
      ensures !Gated(user) ==> m == FirstMatch(keywords, msg)
    {
      if requiresAdmin && !user.isAdmin {
        return None;
      }
      for i := 0 to |keywords|
        invariant forall j :: 0 <= j < i ==> !Occurs(keywords[j], msg)
      {
        var found := Search(keywords[i], msg);
        if found.Some? {
          FirstMatchAt(keywords, msg, i);
          return found;
        }
      }
      return None;
    }

    /**
      `act`: with a responder configured, exactly the responder's replies for
      (user, message, match), in order, and the pool is ignored; without one,
      exactly one reply drawn from the pool, or the error of drawing from an
      empty pool.
    */
    method Act(user: User, msg: string, matched: Match) returns (r: Result<seq<Reply>>)
      ensures action.Some? ==> r == Ok(action.value(user, msg, matched))
      ensures action.None? && multipleAnswers == [] ==> r == Err(EmptyPool)
      ensures action.None? && multipleAnswers != [] ==> r.Ok? && |r.value| == 1 && r.value[0] in multipleAnswers
    {
      if action.Some? {
        var produced := action.value(user, msg, matched);
        var yielded: seq<Reply> := [];
        for i := 0 to |produced|
          invariant yielded == produced[..i]
        {
          yielded := yielded + [produced[i]];
        }
        assert produced[..|produced|] == produced;
        return Ok(yielded);
      }
      if multipleAnswers == [] {
        return Err(EmptyPool);
      }
      assert multipleAnswers[0] in multipleAnswers;
      var answer :| answer in multipleAnswers;
      return Ok([answer]);
    }
  }

  // ---------------------------------------------------------------------------
  // Worked examples
  // ---------------------------------------------------------------------------

  /** "cat" matches "Cat!" at its start; `SearchIgnoresCase` states the general case. */
  lemma CatMatchesCapitalised()
    ensures Search(Compile("cat"), "Cat!") == Some(Match(Compile("cat"), 0, "Cat"))
  {
    assert IsLiteral("cat");
    assert "Cat!"[0..3] == "Cat";
    assert MatchesAt(Compile("cat"), "Cat!", 0);
  }

  /** "cat" matches "I have a cat", where it stands as a word of its own. */
  lemma CatMatchesStandalone()
    ensures Search(Compile("cat"), "I have a cat").Some?
  {
    assert IsLiteral("cat");
    assert MatchesAt(Compile("cat"), "I have a cat", 9) by {
      assert "I have a cat"[9..12] == "cat";
    }
  }

  /** "cat" matches nowhere in "category": the only occurrence is the start of a longer word. */
  lemma CatNotInCategory()
    ensures Search(Compile("cat"), "category").None?
  {
    assert IsLiteral("cat");
    EmbeddedWordDoesNotMatch("cat", "category", 0);
    forall i | 1 <= i <= 5
      ensures !MatchesAt(Compile("cat"), "category", i)
    {
      assert "category"[i] != 'c';
      assert "category"[i..i + 3][0] == "category"[i];
    }
  }

  /** "foo" is found in "bar foo" at position 4. */
  lemma FooInBarFoo()
    ensures Search(Compile("foo"), "bar foo") == Some(Match(Compile("foo"), 4, "foo"))
  {
    assert IsLiteral("foo");
    assert "bar foo"[4..7] == "foo";
    assert MatchesAt(Compile("foo"), "bar foo", 4);
    forall i | 0 <= i < 4
      ensures !MatchesAt(Compile("foo"), "bar foo", i)
    {
      assert "bar foo"[i..i + 3][0] == "bar foo"[i];
    }
  }

  /** Keywords "foo", "bar" registered in that order, message "bar foo": the earlier keyword "foo" wins. */
  lemma FirstKeywordWinsExample()
    ensures FirstMatch([Compile("foo"), Compile("bar")], "bar foo") == Some(Match(Compile("foo"), 4, "foo"))
  {
    assert IsLiteral("foo") && IsLiteral("bar");
    FooInBarFoo();
    FirstMatchAt([Compile("foo"), Compile("bar")], "bar foo", 0);
  }

  /** "shutdown" is found at the start of "shutdown now". */
  lemma ShutdownInShutdownNow(msg: string)
    requires msg == "shutdown now"
    ensures Search(Compile("shutdown"), msg) == Some(Match(Compile("shutdown"), 0, "shutdown"))
  {
    assert IsLiteral("shutdown");
    assert msg[0..8] == "shutdown";
    assert MatchesAt(Compile("shutdown"), msg, 0);
    SearchFindsLeftmost(Compile("shutdown"), msg, 0);
  }

  /** An admin-only "shutdown" rule ignores a message from a non-admin and fires for an admin. */
  method AdminGatingExample(msg: string)
    requires msg == "shutdown now"
  {
    assert IsLiteral("shutdown");
    var rule := new Action("shutdown", ["shutdown"], requiresAdmin := true);
    assert rule.keywords == [Compile("shutdown")];
    var m := rule.ShouldTrigger(User(1, false), msg);
    assert m == None;
    ShutdownInShutdownNow(msg);
    FirstMatchAt(rule.keywords, msg, 0);
    m := rule.ShouldTrigger(User(2, true), msg);
    assert m == Some(Match(Compile("shutdown"), 0, "shutdown"));
  }

  /** A rule with a one-answer pool and no responder replies with that answer. */
  method PoolReplyExample(user: User, msg: string, matched: Match) {
    var rule := new Action("bye", [], multipleAnswers := ["bye"]);
    var replies := rule.Act(user, msg, matched);
    assert replies.Ok? && |replies.value| == 1 && replies.value[0] == "bye";
    assert replies.value == ["bye"];
  }
}
