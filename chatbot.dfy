/** The chatbot's reply selection (chatbot/views.py, chatbot/models.py): keyword scoring over
    the knowledge base, and the fixed-priority chain of topic replies around it. Messages are
    compared after lower-casing, by substring containment. */
module Chatbot {
  import opened Text

  /** A ChatbotKnowledge row. `keywords` is the comma-separated keyword text as stored. */
  datatype Knowledge = Knowledge(question: string, answer: string, keywords: string, priority: int, isActive: bool)

  // ---------------------------------------------------------------------------
  // ChatbotKnowledge.keyword_list

  /** Strip every piece and drop the ones that end up empty, keeping the order. */
  function StripNonEmpty(pieces: seq<string>): seq<string> {
    if pieces == [] then []
    else
      var t := Strip(pieces[0]);
      if t != [] then [t] + StripNonEmpty(pieces[1..]) else StripNonEmpty(pieces[1..])
  }

  /** The keywords of an entry: comma-separated pieces, stripped, empty ones dropped. */
  function KeywordList(keywords: string): seq<string> {
    StripNonEmpty(Split(keywords, ','))
  }

  /** No keyword is empty or has surrounding whitespace, there is at most one per piece, and a
      character that no piece holds is in no keyword. */
  lemma {:induction false} StripNonEmptyShape(pieces: seq<string>, c: char)
    ensures |StripNonEmpty(pieces)| <= |pieces|
    ensures forall i :: 0 <= i < |StripNonEmpty(pieces)| ==>
      var w := StripNonEmpty(pieces)[i];
      w != [] && !IsSpace(w[0]) && !IsSpace(w[|w| - 1])
    ensures (forall k :: 0 <= k < |pieces| ==> c !in pieces[k]) ==>
      forall i :: 0 <= i < |StripNonEmpty(pieces)| ==> c !in StripNonEmpty(pieces)[i]
  {
    if pieces != [] {
      StripNonEmptyShape(pieces[1..], c);
      StripSpec(pieces[0]);
      var r := StripNonEmpty(pieces);
      var rest := StripNonEmpty(pieces[1..]);
      if Strip(pieces[0]) != [] {
        assert forall i :: 1 <= i < |r| ==> r[i] == rest[i - 1];
      }
    }
  }

  /** keyword_list yields non-empty keywords without surrounding whitespace or commas. */
  lemma KeywordListShape(keywords: string)
    ensures forall i :: 0 <= i < |KeywordList(keywords)| ==>
      var w := KeywordList(keywords)[i];
      w != [] && !IsSpace(w[0]) && !IsSpace(w[|w| - 1]) && ',' !in w
  {
    StripNonEmptyShape(Split(keywords, ','), ',');
  }

  /** Dropping and stripping are done piece by piece: the keywords of two runs of pieces are
      the keywords of the first followed by those of the second (so the input order is kept). */
  lemma {:induction false} StripNonEmptyAppend(a: seq<string>, b: seq<string>)
    ensures StripNonEmpty(a + b) == StripNonEmpty(a) + StripNonEmpty(b)
  {
    if a == [] {
      assert a + b == b;
    } else {
      assert (a + b)[0] == a[0];
      assert (a + b)[1..] == a[1..] + b;
      StripNonEmptyAppend(a[1..], b);
    }
  }

  /** At most one keyword per comma-separated piece. */
  lemma KeywordListBound(keywords: string)
    ensures |KeywordList(keywords)| <= Count(keywords, ',') + 1
  {
    SplitLength(keywords, ',');
    StripNonEmptyShape(Split(keywords, ','), ',');
  }

  /** Keywords written the usual way, each after a comma and a blank: "a, b, c". */
  function KeywordText(words: seq<string>): string
    requires |words| >= 1
  {
    Join([words[0]] + Spaced(words[1..]), ',')
  }

  function Spaced(words: seq<string>): (r: seq<string>)
    ensures |r| == |words|
    ensures forall i :: 0 <= i < |words| ==> r[i] == [' '] + words[i]
  {
    if words == [] then [] else [[' '] + words[0]] + Spaced(words[1..])
  }

  /** A keyword needs no stripping when it is non-empty and has no surrounding whitespace. */
  predicate IsKeyword(w: string) {
    w != [] && !IsSpace(w[0]) && !IsSpace(w[|w| - 1]) && ',' !in w
  }

  /** Writing keywords as "a, b, c" and reading them back with keyword_list gives the same
      keywords ('optima, rewards, loyalty' gives three). */
  lemma KeywordListRoundTrip(words: seq<string>)
    requires |words| >= 1
    requires forall i :: 0 <= i < |words| ==> IsKeyword(words[i])
    ensures KeywordList(KeywordText(words)) == words
  {
    var pieces := [words[0]] + Spaced(words[1..]);
    assert forall i :: 0 <= i < |pieces| ==> ',' !in pieces[i] by {
      forall i | 0 <= i < |pieces| ensures ',' !in pieces[i] {
        if i > 0 {
          assert pieces[i] == [' '] + words[i];
        }
      }
    }
    SplitJoin(pieces, ',');
    StripSpaced(words[1..]);
    StripSpec(words[0]);
    assert pieces[1..] == Spaced(words[1..]);
    assert words == [words[0]] + words[1..];
  }

  lemma {:induction false} StripSpaced(words: seq<string>)
    requires forall i :: 0 <= i < |words| ==> IsKeyword(words[i])
    ensures StripNonEmpty(Spaced(words)) == words
  {
    if words != [] {
      StripBlankLed(words[0]);
      StripSpaced(words[1..]);
      assert Spaced(words)[1..] == Spaced(words[1..]);
    }
  }

  /** A blank before a word is stripped. */
  lemma StripBlankLed(w: string)
    requires w != [] && !IsSpace(w[0]) && !IsSpace(w[|w| - 1])
    ensures Strip([' '] + w) == w
  {
    assert ([' '] + w)[1..] == w;
    assert TrimLeft([' '] + w) == TrimLeft(w);
    assert TrimLeft(w) == w;
    StripSpec(w);
  }

  // ---------------------------------------------------------------------------
  // The words of a question: re.findall(r'\b\w+\b', ...)

  /** The maximal runs of word characters, in order. */
  function Words(s: string): seq<string>
    decreases |s|
  {
    if s == [] then []
    else if !IsWordChar(s[0]) then Words(s[1..])
    else
      var n := WordRun(s);
      [s[..n]] + Words(s[n..])
  }

  /** Every word is a non-empty run of word characters. */
  lemma {:induction false} WordsShape(s: string)
    ensures forall i :: 0 <= i < |Words(s)| ==> Words(s)[i] != [] && forall j :: 0 <= j < |Words(s)[i]| ==> IsWordChar(Words(s)[i][j])
    decreases |s|
  {
    if s != [] {
      if !IsWordChar(s[0]) {
        WordsShape(s[1..]);
      } else {
        var n := WordRun(s);
        WordsShape(s[n..]);
        assert forall i :: 1 <= i < |Words(s)| ==> Words(s)[i] == Words(s[n..])[i - 1];
      }
    }
  }

  /** A run of word characters is one word. */
  lemma WordsOfWord(w: string)
    requires w != [] && forall j :: 0 <= j < |w| ==> IsWordChar(w[j])
    ensures Words(w) == [w]
  {
    WordRunAll(w);
    assert w[..|w|] == w;
    assert w[|w|..] == [];
  }

  lemma {:induction false} WordRunAll(w: string)
    requires forall j :: 0 <= j < |w| ==> IsWordChar(w[j])
    ensures WordRun(w) == |w|
  {
    if w != [] {
      WordRunAll(w[1..]);
    }
  }

  /** A non-word character separates: the words on either side are found independently. */
  lemma {:induction false} WordsSeparated(a: string, c: char, b: string)
    requires !IsWordChar(c)
    ensures Words(a + [c] + b) == Words(a) + Words(b)
    decreases |a|
  {
    var t := [c] + b;
    assert a + [c] + b == a + t;
    assert Words(t) == Words(b) by { assert t[1..] == b; }
    if a == [] {
      assert a + t == t;
    } else if !IsWordChar(a[0]) {
      assert (a + t)[1..] == a[1..] + [c] + b;
      WordsSeparated(a[1..], c, b);
    } else {
      var n := WordRun(a);
      WordRunPrefix(a, t);
      WordsAfterRun(a + t, n);
      WordsAfterRun(a, n);
      assert (a + t)[..n] == a[..n];
      if n < |a| {
        assert (a + t)[n..] == a[n..] + [c] + b;
        WordsSeparated(a[n..], c, b);
      } else {
        assert (a + t)[n..] == t;
        assert a[n..] == [];
      }
    }
  }

  /** Unfolds `Words` once at a leading run of `n` word characters. */
  lemma WordsAfterRun(s: string, n: nat)
    requires s != [] && IsWordChar(s[0]) && n == WordRun(s)
    ensures Words(s) == [s[..n]] + Words(s[n..])
  {
  }

  /** The run at the start of `a` is not extended by what follows, unless it covers all of `a`
      and what follows starts with a word character. */
  lemma {:induction false} WordRunPrefix(a: string, b: string)
    requires b != [] && !IsWordChar(b[0])
    ensures WordRun(a + b) == WordRun(a)
  {
    if a != [] && IsWordChar(a[0]) {
      assert (a + b)[1..] == a[1..] + b;
      WordRunPrefix(a[1..], b);
    } else if a == [] {
      assert a + b == b;
    }
  }

  // ---------------------------------------------------------------------------
  // Scoring one entry against a lower-cased message

  /** `priority` for each keyword the message contains. */
  function KeywordScore(keywords: seq<string>, m: string, priority: int): int {
    if keywords == [] then 0
    else
      KeywordScore(keywords[..|keywords| - 1], m, priority)
      + (if Contains(m, Lower(keywords[|keywords| - 1])) then priority else 0)
  }

  /** One point for each question word the message contains. */
  function WordScore(words: seq<string>, m: string): nat {
    if words == [] then 0
    else WordScore(words[..|words| - 1], m) + (if Contains(m, words[|words| - 1]) then 1 else 0)
  }

  /** Some keyword of the entry occurs in the message. */
  predicate AnyKeyword(keywords: seq<string>, m: string) {
    exists i :: 0 <= i < |keywords| && Contains(m, Lower(keywords[i]))
  }

  /** The score find_best_response gives an entry: the keyword hits, the question words, and
      twice the priority again when any keyword hits. */
  function Score(e: Knowledge, m: string): int {
    var keywords := KeywordList(e.keywords);
    KeywordScore(keywords, m, e.priority)
      + WordScore(Words(Lower(e.question)), m)
      + (if AnyKeyword(keywords, m) then 2 * e.priority else 0)
  }

  lemma {:induction false} KeywordScoreBounds(keywords: seq<string>, m: string, priority: int)
    requires priority >= 0
    ensures 0 <= KeywordScore(keywords, m, priority) <= priority * |keywords|
    ensures AnyKeyword(keywords, m) ==> KeywordScore(keywords, m, priority) >= priority
  {
    if keywords != [] {
      var init := keywords[..|keywords| - 1];
      KeywordScoreBounds(init, m, priority);
      assert priority * |keywords| == priority * |init| + priority;
      if AnyKeyword(keywords, m) && !Contains(m, Lower(keywords[|keywords| - 1])) {
        var i :| 0 <= i < |keywords| && Contains(m, Lower(keywords[i]));
        assert init[i] == keywords[i];
      }
    }
  }

  /** With a non-negative priority, an entry with a keyword hit scores at least three times its
      priority; without one, only the question words count. */
  lemma KeywordHitScore(e: Knowledge, m: string)
    requires e.priority >= 0
    ensures Score(e, m) >= 0
    ensures AnyKeyword(KeywordList(e.keywords), m) ==> Score(e, m) >= 3 * e.priority
    ensures !AnyKeyword(KeywordList(e.keywords), m) ==> Score(e, m) == WordScore(Words(Lower(e.question)), m)
  {
    var keywords := KeywordList(e.keywords);
    KeywordScoreBounds(keywords, m, e.priority);
    if !AnyKeyword(keywords, m) {
      KeywordScoreMiss(keywords, m, e.priority);
    }
  }

  lemma {:induction false} KeywordScoreMiss(keywords: seq<string>, m: string, priority: int)
    requires !AnyKeyword(keywords, m)
    ensures KeywordScore(keywords, m, priority) == 0
  {
    if keywords != [] {
      var init := keywords[..|keywords| - 1];
      assert !AnyKeyword(init, m) by {
        forall i | 0 <= i < |init| ensures !Contains(m, Lower(init[i])) {
          assert init[i] == keywords[i];
        }
      }
      KeywordScoreMiss(init, m, priority);
    }
  }

  /** The scoring loop of find_best_response for one entry. */
  method EntryScore(e: Knowledge, m: string) returns (score: int)
    ensures score == Score(e, m)
  {
    var keywords := KeywordList(e.keywords);
    score := 0;
    for i := 0 to |keywords|
      invariant score == KeywordScore(keywords[..i], m, e.priority)
    {
      assert keywords[..i + 1][..i] == keywords[..i];
      if Contains(m, Lower(keywords[i])) {
        score := score + e.priority;
      }
    }
    assert keywords[..|keywords|] == keywords;
    var words := Words(Lower(e.question));
    var wordScore := 0;
    for i := 0 to |words|
      invariant wordScore == WordScore(words[..i], m)
    {
      assert words[..i + 1][..i] == words[..i];
      if Contains(m, words[i]) {
        wordScore := wordScore + 1;
      }
    }
    assert words[..|words|] == words;
    score := score + wordScore;
    if AnyKeyword(keywords, m) {
      score := score + e.priority * 2;
    }
  }

  // ---------------------------------------------------------------------------
  // find_best_response

  /** Entry `k` is the one find_best_response returns: active, with a positive score, no active
      entry scoring higher, and every active entry before it scoring strictly lower. */
  predicate IsBest(entries: seq<Knowledge>, m: string, k: int) {
    && 0 <= k < |entries|
    && entries[k].isActive
    && Score(entries[k], m) > 0
    && (forall j :: 0 <= j < |entries| && entries[j].isActive ==> Score(entries[j], m) <= Score(entries[k], m))
    && (forall j :: 0 <= j < k && entries[j].isActive ==> Score(entries[j], m) < Score(entries[k], m))
  }

  /** No active entry scores above 0. */
  predicate NoMatch(entries: seq<Knowledge>, m: string) {
    forall j :: 0 <= j < |entries| && entries[j].isActive ==> Score(entries[j], m) <= 0
  }

  /** The choice is determined: at most one entry is the best. */
  lemma BestIsUnique(entries: seq<Knowledge>, m: string, k1: int, k2: int)
    requires IsBest(entries, m, k1) && IsBest(entries, m, k2)
    ensures k1 == k2
  {
  }

  /** Either some entry is the best or none matches, never both. */
  lemma BestOrNoMatch(entries: seq<Knowledge>, m: string, k: int)
    requires IsBest(entries, m, k)
    ensures !NoMatch(entries, m)
  {
    assert entries[k].isActive && Score(entries[k], m) > 0;
  }

  /** After scanning the first `i` entries: `bestIndex` is -1 with `bestScore` 0 when none of
      them scored above 0, and otherwise the first active entry with the highest score so far,
      which is `bestScore`. */
  predicate Scanned(entries: seq<Knowledge>, m: string, i: int, bestScore: int, bestIndex: int) {
    && 0 <= i <= |entries|
    && (bestIndex == -1 ==> bestScore == 0 && forall j :: 0 <= j < i && entries[j].isActive ==> Score(entries[j], m) <= 0)
    && (bestIndex != -1 ==>
          && 0 <= bestIndex < i && entries[bestIndex].isActive && bestScore == Score(entries[bestIndex], m) && bestScore > 0
          && (forall j :: 0 <= j < i && entries[j].isActive ==> Score(entries[j], m) <= bestScore)
          && (forall j :: 0 <= j < bestIndex && entries[j].isActive ==> Score(entries[j], m) < bestScore))
  }

  /** One iteration of find_best_response's loop. */
  method Consider(entries: seq<Knowledge>, m: string, i: int, bestScore: int, bestIndex: int)
    returns (newScore: int, newIndex: int)
    requires i < |entries| && Scanned(entries, m, i, bestScore, bestIndex)
    ensures Scanned(entries, m, i + 1, newScore, newIndex)
  {
    newScore, newIndex := bestScore, bestIndex;
    if entries[i].isActive {
      var score := EntryScore(entries[i], m);
      if score > bestScore {
        newScore, newIndex := score, i;
      }
    }
  }

  /** A full scan finds the best entry, or establishes that none matches. */
  lemma ScanDecides(entries: seq<Knowledge>, m: string, bestScore: int, bestIndex: int)
    requires Scanned(entries, m, |entries|, bestScore, bestIndex)
    ensures bestIndex == -1 <==> NoMatch(entries, m)
    ensures bestIndex != -1 ==> IsBest(entries, m, bestIndex)
  {
  }

  /** find_best_response: scan the active entries, keeping the first one whose score beats the
      best so far (which starts at 0). */
  method FindBestResponse(entries: seq<Knowledge>, message: string) returns (best: Option<Knowledge>)
    ensures best.None? <==> NoMatch(entries, Lower(message))
    ensures best.Some? ==> exists k :: IsBest(entries, Lower(message), k) && best.value == entries[k]
  {
    var m := Lower(message);
    var bestScore := 0;
    var bestIndex := -1;
    for i := 0 to |entries|
      invariant Scanned(entries, m, i, bestScore, bestIndex)
    {
      bestScore, bestIndex := Consider(entries, m, i, bestScore, bestIndex);
    }
    ScanDecides(entries, m, bestScore, bestIndex);
    if bestIndex == -1 {
      return None;
    }
    return Some(entries[bestIndex]);
  }

  // ---------------------------------------------------------------------------
  // generate_contextual_response

  const PointsWords: seq<string> := ["points", "reward", "balance"]
  const VoucherWords: seq<string> := ["voucher", "redeem", "coupon"]
  const AccountWords: seq<string> := ["account", "profile", "settings"]
  const HelpWords: seq<string> := ["help", "support", "problem"]
  const LoginWords: seq<string> := ["login", "signin", "authentication"]
  const SecurityWords: seq<string> := ["security", "privacy", "safe"]
  const GreetingWords: seq<string> := ["hello", "hi", "hey", "good morning", "good afternoon", "good evening"]
  const ThanksWords: seq<string> := ["thank", "thanks"]
  const ByeWords: seq<string> := ["bye", "goodbye", "see you"]

  const BalanceLead: string := "Your current points balance is "
  const BalanceTail: string := " points. You can redeem these points for various vouchers and rewards in our catalog."
  const LoginForBalance: string := "To check your points balance, please log in to your account. You can earn points with every transaction using your Optima Bank card."
  const VoucherReply: string := "You can redeem your points for vouchers in our rewards catalog. Browse available vouchers, add them to your cart, and checkout to receive your coupon codes and PDF vouchers."
  const AccountReply: string := "You can manage your account settings, update your profile information, and view your transaction history in the account section of the app."
  const HelpReply: string := "I'm here to help! You can ask me about your points balance, voucher redemption, account management, or any other Optima Rewards related questions."
  const LoginReply: string := "You can log in using your email and password, or use biometric authentication if available on your device. Forgot your password? Use the 'Forgot Password' option."
  const SecurityReply: string := "Your data is protected with bank-level encryption and security measures. We never share your personal information with third parties without your consent."
  const GreetingReply: string := "Hello! I'm your Optima Rewards assistant. How can I help you today? You can ask me about your points, vouchers, account settings, or any other questions about our rewards program."
  const ThanksReply: string := "You're welcome! Is there anything else I can help you with regarding Optima Rewards?"
  const ByeReply: string := "Goodbye! Feel free to come back anytime if you need help with Optima Rewards. Have a great day!"
  const DefaultReply: string := "I understand you're asking about Optima Rewards. Could you please be more specific? I can help you with points balance, voucher redemption, account management, or general questions about our rewards program."

  /** The points reply: the balance when the user has a profile, a log-in hint otherwise. */
  function PointsReply(profile: Option<int>): string {
    match profile
    case Some(points) => BalanceLead + IntToString(points) + BalanceTail
    case None => LoginForBalance
  }

  /** The first topic group the lower-cased message mentions decides the reply. */
  function TopicReply(m: string, profile: Option<int>): Option<string> {
    if ContainsAny(m, PointsWords) then Some(PointsReply(profile))
    else if ContainsAny(m, VoucherWords) then Some(VoucherReply)
    else if ContainsAny(m, AccountWords) then Some(AccountReply)
    else if ContainsAny(m, HelpWords) then Some(HelpReply)
    else if ContainsAny(m, LoginWords) then Some(LoginReply)
    else if ContainsAny(m, SecurityWords) then Some(SecurityReply)
    else None
  }

  /** The replies used when neither a topic group nor the knowledge base answers. */
  function FallbackReply(m: string): string {
    if ContainsAny(m, GreetingWords) then GreetingReply
    else if ContainsAny(m, ThanksWords) then ThanksReply
    else if ContainsAny(m, ByeWords) then ByeReply
    else DefaultReply
  }

  /** A topic reply is given exactly when the message mentions one of the six groups. */
  lemma TopicReplyIff(m: string, profile: Option<int>)
    ensures TopicReply(m, profile).Some? <==>
      (ContainsAny(m, PointsWords) || ContainsAny(m, VoucherWords) || ContainsAny(m, AccountWords)
       || ContainsAny(m, HelpWords) || ContainsAny(m, LoginWords) || ContainsAny(m, SecurityWords))
  {
  }

  /** Whatever else a message says, mentioning points, reward or balance gets the points
      reply, and only that reply depends on the profile. */
  lemma PointsTakePrecedence(m: string, profile: Option<int>, other: Option<int>)
    ensures ContainsAny(m, PointsWords) ==> TopicReply(m, profile) == Some(PointsReply(profile))
    ensures !ContainsAny(m, PointsWords) ==> TopicReply(m, profile) == TopicReply(m, other)
  {
  }

  /** With a profile, the points reply shows the balance as a decimal number. */
  lemma BalanceShown(points: int)
    ensures Contains(PointsReply(Some(points)), IntToString(points))
  {
    var r := PointsReply(Some(points));
    assert r[|BalanceLead|..|BalanceLead| + |IntToString(points)|] == IntToString(points);
    assert OccursAt(r, IntToString(points), |BalanceLead|);
  }

  /** Every canned reply is non-empty. */
  lemma CannedRepliesNonEmpty(m: string, profile: Option<int>)
    ensures TopicReply(m, profile).Some? ==> TopicReply(m, profile).value != []
    ensures FallbackReply(m) != []
  {
  }

  /** "hi" is matched as a substring, so a message such as "this" counts as a greeting. */
  lemma SubstringGreeting()
    ensures FallbackReply("this") == GreetingReply
  {
    assert OccursAt("this", "hi", 1);
    assert Contains("this", GreetingWords[1]);
  }

  /** generate_contextual_response. `profile` is the user's points when a profile was passed. */
  method GenerateContextualResponse(message: string, profile: Option<int>, entries: seq<Knowledge>) returns (reply: string)
    ensures var m := Lower(message);
      TopicReply(m, profile).Some? ==> reply == TopicReply(m, profile).value
    ensures var m := Lower(message);
      TopicReply(m, profile).None? && !NoMatch(entries, m) ==>
        exists k :: IsBest(entries, m, k) && reply == entries[k].answer
    ensures var m := Lower(message);
      TopicReply(m, profile).None? && NoMatch(entries, m) ==> reply == FallbackReply(m)
  {
    var m := Lower(message);
    var topic := TopicReply(m, profile);
    if topic.Some? {
      return topic.value;
    }
    var best := FindBestResponse(entries, message);
    if best.Some? {
      return best.value.answer;
    }
    return FallbackReply(m);
  }
}
