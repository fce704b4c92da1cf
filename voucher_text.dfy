/** The two voucher-text maintenance commands: fix_voucher_html_chars, which escapes the HTML
    special characters of each voucher's title, description and terms and saves the vouchers
    it changed, and validate_vouchers, which lists each voucher's problems and counts the
    vouchers that have any. */
module VoucherText {
  import opened Text
  import opened Catalog

  // ---------------------------------------------------------------------------
  // Escaping

  /** The replacement table, in the order it is applied: `&` first. */
  const Replacements: seq<(char, string)> :=
    [('&', "&amp;"), ('<', "&lt;"), ('>', "&gt;"), ('"', "&quot;"), ('\'', "&#x27;")]

  /** The five entity strings the escaping produces. */
  const Entities: set<string> := {"&amp;", "&lt;", "&gt;", "&quot;", "&#x27;"}

  /** The text after the first `n` replacements of the table. */
  function EscapeFirst(s: string, n: nat): string
    requires n <= |Replacements|
  {
    if n == 0 then s
    else ReplaceChar(EscapeFirst(s, n - 1), Replacements[n - 1].0, Replacements[n - 1].1)
  }

  /** The text after the whole table. */
  function Escape(s: string): string {
    EscapeFirst(s, |Replacements|)
  }

  /** Contains one of the characters the table replaces. */
  predicate HasSpecial(s: string) {
    exists k :: 0 <= k < |Replacements| && Replacements[k].0 in s
  }

  lemma HasSpecialIff(s: string)
    ensures HasSpecial(s) <==> '&' in s || '<' in s || '>' in s || '"' in s || '\'' in s
  {
    if '&' in s { assert Replacements[0].0 in s; }
    if '<' in s { assert Replacements[1].0 in s; }
    if '>' in s { assert Replacements[2].0 in s; }
    if '"' in s { assert Replacements[3].0 in s; }
    if '\'' in s { assert Replacements[4].0 in s; }
  }

  /** A character that no replacement among the first `n` removes or introduces is present
      after them exactly when it was present before. */
  lemma {:induction false} EscapeFirstKeeps(s: string, n: nat, d: char)
    requires n <= |Replacements|
    requires forall k :: 0 <= k < n ==> Replacements[k].0 != d && d !in Replacements[k].1
    ensures d in EscapeFirst(s, n) <==> d in s
  {
    if n > 0 {
      EscapeFirstKeeps(s, n - 1, d);
      ReplaceCharKeeps(EscapeFirst(s, n - 1), Replacements[n - 1].0, Replacements[n - 1].1, d);
    }
  }

  /** At step `k` of the loop, the character to replace is in the text exactly when it was in
      the original field. */
  lemma SpecialSurvives(s: string, k: nat)
    requires k < |Replacements|
    ensures Replacements[k].0 in EscapeFirst(s, k) <==> Replacements[k].0 in s
  {
    EscapeFirstKeeps(s, k, Replacements[k].0);
  }

  /** After escaping, no raw `<`, `>`, `"` or `'` remains. */
  lemma EscapeRemovesSpecials(s: string)
    ensures '<' !in Escape(s) && '>' !in Escape(s) && '"' !in Escape(s) && '\'' !in Escape(s)
  {
    forall k | 1 <= k < |Replacements|
      ensures Replacements[k].0 !in Escape(s)
    {
      var c := Replacements[k].0;
      ReplaceCharRemoves(EscapeFirst(s, k), c, Replacements[k].1);
      assert c !in EscapeFirst(s, k + 1);
      assert forall j :: k + 1 <= j < |Replacements| ==> Replacements[j].0 != c && c !in Replacements[j].1;
      EscapeFirstKeepsFrom(s, k + 1, |Replacements|, c);
    }
    assert Replacements[1].0 == '<' && Replacements[2].0 == '>';
    assert Replacements[3].0 == '"' && Replacements[4].0 == '\'';
  }

  /** Like `EscapeFirstKeeps`, over the steps from `m` to `n`. */
  lemma {:induction false} EscapeFirstKeepsFrom(s: string, m: nat, n: nat, d: char)
    requires m <= n <= |Replacements|
    requires forall k :: m <= k < n ==> Replacements[k].0 != d && d !in Replacements[k].1
    ensures d in EscapeFirst(s, n) <==> d in EscapeFirst(s, m)
    decreases n - m
  {
    if m < n {
      EscapeFirstKeepsFrom(s, m, n - 1, d);
      ReplaceCharKeeps(EscapeFirst(s, n - 1), Replacements[n - 1].0, Replacements[n - 1].1, d);
    }
  }

  /** A field without special characters is left as it is. */
  lemma {:induction false} EscapeNoSpecial(s: string, n: nat)
    requires n <= |Replacements| && !HasSpecial(s)
    ensures EscapeFirst(s, n) == s
  {
    if n > 0 {
      EscapeNoSpecial(s, n - 1);
      assert Replacements[n - 1].0 !in s;
      ReplaceCharRemoves(s, Replacements[n - 1].0, Replacements[n - 1].1);
    }
  }

  // ---------------------------------------------------------------------------
  // Every `&` of an escaped text begins an entity

  predicate EntityShape(e: string) {
    |e| >= 2 && e[0] == '&' && '&' !in e[1..]
  }

  /** Every `&` of `t` begins one of `ents`. */
  predicate EntitiesOnly(t: string, ents: set<string>)
    decreases |t|
  {
    t == [] || ((t[0] == '&' ==> exists e :: e in ents && StartsWith(t, e)) && EntitiesOnly(t[1..], ents))
  }

  /** The same, position by position. */
  lemma {:induction false} EntitiesOnlyAt(t: string, ents: set<string>, i: nat)
    requires EntitiesOnly(t, ents) && i < |t| && t[i] == '&'
    ensures exists e :: e in ents && StartsWith(t[i..], e)
  {
    if i > 0 {
      EntitiesOnlyAt(t[1..], ents, i - 1);
      assert t[1..][i - 1..] == t[i..];
    }
  }

  lemma {:induction false} EntitiesOnlyPlainPrefix(p: string, r: string, ents: set<string>)
    requires '&' !in p && EntitiesOnly(r, ents)
    ensures EntitiesOnly(p + r, ents)
  {
    if p == [] {
      assert p + r == r;
    } else {
      assert (p + r)[1..] == p[1..] + r;
      EntitiesOnlyPlainPrefix(p[1..], r, ents);
    }
  }

  lemma {:induction false} EntitiesOnlyDrop(t: string, ents: set<string>, n: nat)
    requires EntitiesOnly(t, ents) && n <= |t|
    ensures EntitiesOnly(t[n..], ents)
  {
    if n > 0 {
      EntitiesOnlyDrop(t[1..], ents, n - 1);
      assert t[1..][n - 1..] == t[n..];
    }
  }

  /** `&` escaped as `&amp;` makes every `&` begin an entity. */
  lemma {:induction false} EscapeAmpersands(s: string, ents: set<string>)
    requires "&amp;" in ents
    ensures EntitiesOnly(ReplaceChar(s, '&', "&amp;"), ents)
  {
    if s != [] {
      var r := ReplaceChar(s[1..], '&', "&amp;");
      EscapeAmpersands(s[1..], ents);
      if s[0] == '&' {
        var t := "&amp;" + r;
        assert t[..5] == "&amp;";
        assert t[1..] == "amp;" + r;
        EntitiesOnlyPlainPrefix("amp;", r, ents);
      } else {
        assert ([s[0]] + r)[1..] == r;
      }
    }
  }

  lemma {:induction false} ReplaceCharPlainPrefix(p: string, s: string, c: char, rep: string)
    requires c !in p && StartsWith(s, p)
    ensures StartsWith(ReplaceChar(s, c, rep), p)
  {
    if p != [] {
      assert s[1..][..|p| - 1] == p[1..];
      ReplaceCharPlainPrefix(p[1..], s[1..], c, rep);
    }
  }

  /** Replacing a character that no entity contains by an entity keeps every `&` at the head
      of an entity. */
  lemma {:induction false} ReplaceKeepsEntities(t: string, c: char, rep: string, ents: set<string>)
    requires rep in ents && forall e :: e in ents ==> EntityShape(e) && c !in e
    requires EntitiesOnly(t, ents)
    ensures EntitiesOnly(ReplaceChar(t, c, rep), ents)
  {
    if t != [] {
      var r := ReplaceChar(t[1..], c, rep);
      ReplaceKeepsEntities(t[1..], c, rep, ents);
      if t[0] == c {
        assert EntityShape(rep);
        var u := rep + r;
        assert u[..|rep|] == rep;
        assert u[1..] == rep[1..] + r;
        EntitiesOnlyPlainPrefix(rep[1..], r, ents);
      } else {
        var u := [t[0]] + r;
        assert u[1..] == r;
        if t[0] == '&' {
          var e :| e in ents && StartsWith(t, e);
          assert EntityShape(e);
          assert StartsWith(t[1..], e[1..]) by {
            assert t[1..][..|e| - 1] == t[..|e|][1..];
          }
          ReplaceCharPlainPrefix(e[1..], t[1..], c, rep);
          assert u[..|e|] == [t[0]] + r[..|e| - 1];
          assert StartsWith(u, e);
        }
      }
    }
  }

  lemma EntitiesShaped()
    ensures forall e :: e in Entities ==> EntityShape(e) && '<' !in e && '>' !in e && '"' !in e && '\'' !in e
  {
  }

  /** Every `&` of an escaped text begins one of the five entities: `&` is replaced before
      any entity is introduced. */
  lemma EscapeEntitiesOnly(s: string)
    ensures EntitiesOnly(Escape(s), Entities)
    ensures forall i :: 0 <= i < |Escape(s)| && Escape(s)[i] == '&' ==>
      exists e :: e in Entities && StartsWith(Escape(s)[i..], e)
  {
    EntitiesShaped();
    EscapeAmpersands(s, Entities);
    assert EscapeFirst(s, 1) == ReplaceChar(s, '&', "&amp;");
    ReplaceKeepsEntities(EscapeFirst(s, 1), '<', "&lt;", Entities);
    ReplaceKeepsEntities(EscapeFirst(s, 2), '>', "&gt;", Entities);
    ReplaceKeepsEntities(EscapeFirst(s, 3), '"', "&quot;", Entities);
    ReplaceKeepsEntities(EscapeFirst(s, 4), '\'', "&#x27;", Entities);
    forall i | 0 <= i < |Escape(s)| && Escape(s)[i] == '&'
      ensures exists e :: e in Entities && StartsWith(Escape(s)[i..], e)
    {
      EntitiesOnlyAt(Escape(s), Entities, i);
    }
  }

  // ---------------------------------------------------------------------------
  // Escaping changes every field that has a special character, again on every run

  lemma {:induction false} ReplaceCharLength(s: string, c: char, rep: string)
    requires |rep| >= 1
    ensures |ReplaceChar(s, c, rep)| >= |s|
    ensures c in s && |rep| >= 2 ==> |ReplaceChar(s, c, rep)| > |s|
  {
    if s != [] {
      ReplaceCharLength(s[1..], c, rep);
    }
  }

  lemma {:induction false} ReplaceCharIntroduces(s: string, c: char, rep: string, d: char)
    requires c in s && d in rep
    ensures d in ReplaceChar(s, c, rep)
  {
    if s[0] == c {
      assert ReplaceChar(s, c, rep) == rep + ReplaceChar(s[1..], c, rep);
    } else {
      ReplaceCharIntroduces(s[1..], c, rep, d);
      assert ReplaceChar(s, c, rep) == [s[0]] + ReplaceChar(s[1..], c, rep);
    }
  }

  lemma {:induction false} ReplaceCharKeepsOther(s: string, c: char, rep: string, d: char)
    requires d != c && d in s
    ensures d in ReplaceChar(s, c, rep)
  {
    if s[0] == d {
      assert ReplaceChar(s, c, rep) == [s[0]] + ReplaceChar(s[1..], c, rep);
    } else if s[0] == c {
      ReplaceCharKeepsOther(s[1..], c, rep, d);
      assert ReplaceChar(s, c, rep) == rep + ReplaceChar(s[1..], c, rep);
    } else {
      ReplaceCharKeepsOther(s[1..], c, rep, d);
      assert ReplaceChar(s, c, rep) == [s[0]] + ReplaceChar(s[1..], c, rep);
    }
  }

  /** The escaping steps never shorten the text, and step `k` lengthens it when it finds its
      character. */
  lemma {:induction false} EscapeFirstGrows(s: string, m: nat, n: nat)
    requires m <= n <= |Replacements|
    ensures |EscapeFirst(s, n)| >= |EscapeFirst(s, m)|
    ensures m < n && Replacements[m].0 in EscapeFirst(s, m) ==> |EscapeFirst(s, n)| > |EscapeFirst(s, m)|
    decreases n - m
  {
    if m < n {
      EscapeFirstGrows(s, m, n - 1);
      ReplaceCharLength(EscapeFirst(s, n - 1), Replacements[n - 1].0, Replacements[n - 1].1);
      if Replacements[m].0 in EscapeFirst(s, m) && m == n - 1 {
        assert |EscapeFirst(s, n)| > |EscapeFirst(s, m)|;
      }
    }
  }

  /** A field with a special character comes out longer, and contains `&`. */
  lemma EscapeChanges(s: string)
    requires HasSpecial(s)
    ensures |Escape(s)| > |s| && '&' in Escape(s)
  {
    var k :| 0 <= k < |Replacements| && Replacements[k].0 in s;
    SpecialSurvives(s, k);
    EscapeFirstGrows(s, 0, k);
    EscapeFirstGrows(s, k, |Replacements|);
    ReplaceCharIntroduces(EscapeFirst(s, k), Replacements[k].0, Replacements[k].1, '&');
    assert '&' in EscapeFirst(s, k + 1);
    AmpersandStays(s, k + 1, |Replacements|);
  }

  lemma {:induction false} AmpersandStays(s: string, m: nat, n: nat)
    requires 1 <= m <= n <= |Replacements| && '&' in EscapeFirst(s, m)
    ensures '&' in EscapeFirst(s, n)
    decreases n - m
  {
    if m < n {
      AmpersandStays(s, m, n - 1);
      ReplaceCharKeepsOther(EscapeFirst(s, n - 1), Replacements[n - 1].0, Replacements[n - 1].1, '&');
    }
  }

  /** The rewrite is not idempotent: a field it changed is changed again by a second run
      (the `&` of each entity is escaped once more). */
  lemma EscapeNotIdempotent(s: string)
    requires HasSpecial(s)
    ensures Escape(Escape(s)) != Escape(s)
  {
    EscapeChanges(s);
    assert Replacements[0].0 in Escape(s);
    EscapeChanges(Escape(s));
  }

  // ---------------------------------------------------------------------------
  // fix_voucher_html_chars

  /** One field's pass over the replacement table; `updated` is the voucher's shared flag. */
  method EscapeField(field: string, updated: bool) returns (result: string, updatedAfter: bool)
    ensures result == Escape(field)
    ensures updatedAfter == (updated || HasSpecial(field))
  {
    result := field;
    updatedAfter := updated;
    if field == [] {
      assert !HasSpecial(field);
      EscapeNoSpecial(field, |Replacements|);
      return;
    }
    for i := 0 to |Replacements|
      invariant result == EscapeFirst(field, i)
      invariant updatedAfter == (updated || exists k :: 0 <= k < i && Replacements[k].0 in field)
    {
      var (c, replacement) := Replacements[i];
      SpecialSurvives(field, i);
      if c in result {
        result := ReplaceChar(result, c, replacement);
        updatedAfter := true;
      } else {
        ReplaceCharRemoves(result, c, replacement);
      }
    }
  }

  predicate NeedsFix(v: Voucher) {
    HasSpecial(v.title) || HasSpecial(v.description) || HasSpecial(v.terms)
  }

  /** The voucher with its three text fields escaped. */
  function Fixed(v: Voucher): Voucher {
    v.(title := Escape(v.title), description := Escape(v.description), terms := Escape(v.terms))
  }

  /** A voucher is changed by the command exactly when one of its fields has a special
      character. */
  lemma FixedChangesIff(v: Voucher)
    ensures Fixed(v) != v <==> NeedsFix(v)
  {
    if NeedsFix(v) {
      if HasSpecial(v.title) { EscapeChanges(v.title); assert Fixed(v).title != v.title; }
      else if HasSpecial(v.description) { EscapeChanges(v.description); assert Fixed(v).description != v.description; }
      else { EscapeChanges(v.terms); assert Fixed(v).terms != v.terms; }
    } else {
      EscapeNoSpecial(v.title, |Replacements|);
      EscapeNoSpecial(v.description, |Replacements|);
      EscapeNoSpecial(v.terms, |Replacements|);
    }
  }

  method FixVoucher(v: Voucher) returns (w: Voucher, updated: bool)
    ensures w == Fixed(v) && updated == NeedsFix(v)
  {
    updated := false;
    var title, description, terms;
    title, updated := EscapeField(v.title, updated);
    description, updated := EscapeField(v.description, updated);
    terms, updated := EscapeField(v.terms, updated);
    w := v.(title := title, description := description, terms := terms);
  }

  /** The number of vouchers among `vs` that need fixing. */
  function CountNeedingFix(vs: seq<Voucher>): (n: nat)
    ensures n <= |vs|
  {
    if vs == [] then 0
    else CountNeedingFix(vs[..|vs| - 1]) + (if NeedsFix(vs[|vs| - 1]) then 1 else 0)
  }

  /** The command over the voucher table: each voucher that needed fixing is saved with its
      escaped fields and counted; the others are left as they were. */
  method FixHtmlChars(vouchers: seq<Voucher>) returns (after: seq<Voucher>, fixedCount: nat)
    ensures |after| == |vouchers|
    ensures forall i :: 0 <= i < |vouchers| ==> after[i] == Fixed(vouchers[i])
    ensures forall i :: 0 <= i < |vouchers| ==> (after[i] != vouchers[i] <==> NeedsFix(vouchers[i]))
    ensures fixedCount == CountNeedingFix(vouchers)
  {
    after := [];
    fixedCount := 0;
    for i := 0 to |vouchers|
      invariant |after| == i
      invariant forall j :: 0 <= j < i ==> after[j] == Fixed(vouchers[j])
      invariant fixedCount == CountNeedingFix(vouchers[..i])
    {
      var w, updated := FixVoucher(vouchers[i]);
      assert vouchers[..i + 1][..i] == vouchers[..i];
      if updated {
        after := after + [w];
        fixedCount := fixedCount + 1;
      } else {
        FixedChangesIff(vouchers[i]);
        after := after + [vouchers[i]];
      }
    }
    assert vouchers[..|vouchers|] == vouchers;
    forall i | 0 <= i < |vouchers|
      ensures after[i] != vouchers[i] <==> NeedsFix(vouchers[i])
    {
      FixedChangesIff(vouchers[i]);
    }
  }

  // ---------------------------------------------------------------------------
  // validate_vouchers

  /** The field with the five entities deleted, in the order the command deletes them. */
  function WithoutEntities(s: string): string {
    DeleteAll(DeleteAll(DeleteAll(DeleteAll(DeleteAll(s, "&amp;"), "&#x27;"), "&quot;"), "&lt;"), "&gt;")
  }

  datatype Field = Title | Description | Terms

  datatype Issue =
    | Missing(field: Field)
    | InvalidPoints
    | NegativeQuantity
    | HtmlCharacters(field: Field)
    | UnescapedAmpersands(field: Field)

  function FieldText(v: Voucher, f: Field): string {
    match f
    case Title => v.title
    case Description => v.description
    case Terms => v.terms
  }

  predicate HasHtml(s: string) {
    s != [] && ('<' in s || '>' in s)
  }

  /** An `&` remains once the entities are deleted; only looked at when there is no HTML
      character. */
  predicate HasLooseAmpersand(s: string) {
    !HasHtml(s) && s != [] && '&' in s && '&' in WithoutEntities(s)
  }

  /** The issue a text field raises, if any: HTML characters take precedence over the
      ampersand check. */
  function FieldIssue(s: string, f: Field): (r: seq<Issue>)
    ensures |r| <= 1
  {
    if HasHtml(s) then [HtmlCharacters(f)]
    else if s != [] && '&' in s && '&' in WithoutEntities(s) then [UnescapedAmpersands(f)]
    else []
  }

  /** `if cond: issues.append(x)`. */
  function AppendIf(issues: seq<Issue>, cond: bool, x: Issue): (r: seq<Issue>)
    ensures forall y :: y in r <==> y in issues || (cond && y == x)
    ensures |r| <= |issues| + 1
    ensures r == [] <==> issues == [] && !cond
  {
    if cond then issues + [x] else issues
  }

  /** The issues that do not depend on the text's characters, in the command's order. */
  function BasicIssues(v: Voucher): seq<Issue> {
    var i1 := AppendIf([], v.title == [], Missing(Title));
    var i2 := AppendIf(i1, v.description == [], Missing(Description));
    var i3 := AppendIf(i2, v.terms == [], Missing(Terms));
    var i4 := AppendIf(i3, v.points <= 0, InvalidPoints);
    AppendIf(i4, v.quantityAvailable < 0, NegativeQuantity)
  }

  /** The voucher's whole issue list. */
  function Issues(v: Voucher): seq<Issue> {
    BasicIssues(v) + FieldIssue(v.title, Title) + FieldIssue(v.description, Description) + FieldIssue(v.terms, Terms)
  }

  /** The condition under which the command reports `issue` for `v`. */
  predicate Raised(v: Voucher, issue: Issue) {
    match issue
    case Missing(f) => FieldText(v, f) == []
    case InvalidPoints => v.points <= 0
    case NegativeQuantity => v.quantityAvailable < 0
    case HtmlCharacters(f) => HasHtml(FieldText(v, f))
    case UnescapedAmpersands(f) => HasLooseAmpersand(FieldText(v, f))
  }

  lemma FieldIssueSpec(s: string, g: Field)
    ensures forall x :: x in FieldIssue(s, g) <==>
      (x == HtmlCharacters(g) && HasHtml(s)) || (x == UnescapedAmpersands(g) && HasLooseAmpersand(s))
    ensures FieldIssue(s, g) == [] <==> !HasHtml(s) && !HasLooseAmpersand(s)
  {
  }

  lemma BasicIssuesSpec(v: Voucher)
    ensures forall x :: x in BasicIssues(v) <==>
      (x == Missing(Title) && v.title == []) || (x == Missing(Description) && v.description == [])
      || (x == Missing(Terms) && v.terms == []) || (x == InvalidPoints && v.points <= 0)
      || (x == NegativeQuantity && v.quantityAvailable < 0)
    ensures |BasicIssues(v)| <= 5
    ensures BasicIssues(v) == [] <==> !(v.title == [] || v.description == [] || v.terms == [] || v.points <= 0 || v.quantityAvailable < 0)
  {
  }

  /** Each issue is reported exactly when its condition holds (so a field with HTML characters
      is not also reported for ampersands), and at most eight are reported. */
  lemma IssuesSpec(v: Voucher)
    ensures forall x :: x in Issues(v) <==> Raised(v, x)
    ensures |Issues(v)| <= 8
  {
    forall x
      ensures x in Issues(v) <==> Raised(v, x)
    {
      IssueRaised(v, x);
    }
  }

  /** One issue at a time. */
  lemma IssueRaised(v: Voucher, x: Issue)
    ensures x in Issues(v) <==> Raised(v, x)
  {
    var b, f1, f2, f3 := BasicIssues(v), FieldIssue(v.title, Title), FieldIssue(v.description, Description), FieldIssue(v.terms, Terms);
    assert x in Issues(v) <==> x in b || x in f1 || x in f2 || x in f3;
    BasicIssuesSpec(v);
    FieldIssueSpec(v.title, Title);
    FieldIssueSpec(v.description, Description);
    FieldIssueSpec(v.terms, Terms);
    match x {
      case Missing(_) =>
      case InvalidPoints =>
      case NegativeQuantity =>
      case HtmlCharacters(_) =>
      case UnescapedAmpersands(_) =>
    }
  }

  /** The issue list is empty exactly when the voucher is not flagged. */
  lemma IssuesEmpty(v: Voucher)
    ensures Issues(v) == [] <==> !Flagged(v)
  {
    BasicIssuesSpec(v);
    FieldIssueSpec(v.title, Title);
    FieldIssueSpec(v.description, Description);
    FieldIssueSpec(v.terms, Terms);
  }

  /** One voucher's issue list, appended to in the command's order. */
  method ValidateVoucher(v: Voucher) returns (issues: seq<Issue>)
    ensures issues == Issues(v)
    ensures issues == [] <==> !Flagged(v)
  {
    issues := [];
    if v.title == [] { issues := issues + [Missing(Title)]; }
    assert issues == AppendIf([], v.title == [], Missing(Title));
    ghost var i1 := issues;
    if v.description == [] { issues := issues + [Missing(Description)]; }
    assert issues == AppendIf(i1, v.description == [], Missing(Description));
    ghost var i2 := issues;
    if v.terms == [] { issues := issues + [Missing(Terms)]; }
    assert issues == AppendIf(i2, v.terms == [], Missing(Terms));
    ghost var i3 := issues;
    if v.points <= 0 { issues := issues + [InvalidPoints]; }
    assert issues == AppendIf(i3, v.points <= 0, InvalidPoints);
    ghost var i4 := issues;
    if v.quantityAvailable < 0 { issues := issues + [NegativeQuantity]; }
    assert issues == AppendIf(i4, v.quantityAvailable < 0, NegativeQuantity);
    assert issues == BasicIssues(v);
    issues := issues + FieldIssue(v.title, Title);
    issues := issues + FieldIssue(v.description, Description);
    issues := issues + FieldIssue(v.terms, Terms);
    IssuesEmpty(v);
  }

  /** The voucher has at least one issue. */
  predicate Flagged(v: Voucher) {
    v.title == [] || v.description == [] || v.terms == [] || v.points <= 0 || v.quantityAvailable < 0
    || HasHtml(v.title) || HasHtml(v.description) || HasHtml(v.terms)
    || HasLooseAmpersand(v.title) || HasLooseAmpersand(v.description) || HasLooseAmpersand(v.terms)
  }

  function CountFlagged(vs: seq<Voucher>): (n: nat)
    ensures n <= |vs|
  {
    if vs == [] then 0
    else CountFlagged(vs[..|vs| - 1]) + (if Flagged(vs[|vs| - 1]) then 1 else 0)
  }

  /** The command over the voucher table: the number of vouchers with a non-empty issue list. */
  method ValidateVouchers(vouchers: seq<Voucher>) returns (issuesFound: nat)
    ensures issuesFound == CountFlagged(vouchers)
  {
    issuesFound := 0;
    for i := 0 to |vouchers|
      invariant issuesFound == CountFlagged(vouchers[..i])
    {
      var issues := ValidateVoucher(vouchers[i]);
      assert vouchers[..i + 1][..i] == vouchers[..i];
      if issues != [] {
        issuesFound := issuesFound + 1;
      }
    }
    assert vouchers[..|vouchers|] == vouchers;
  }

  // ---------------------------------------------------------------------------
  // The two commands agree

  lemma {:induction false} DeleteAllPlainPrefix(p: string, s: string, pat: string)
    requires pat != [] && pat[0] == '&' && '&' !in p && StartsWith(s, p)
    ensures StartsWith(DeleteAll(s, pat), p)
  {
    if p != [] && |s| >= |pat| {
      assert s[..|pat|] != pat by { assert s[0] == p[0]; }
      assert s[1..][..|p| - 1] == p[1..];
      DeleteAllPlainPrefix(p[1..], s[1..], pat);
    }
  }

  lemma {:induction false} EntitiesOnlyShort(t: string, pat: string, ents: set<string>)
    requires |t| < |pat| && EntitiesOnly(t, ents)
    ensures EntitiesOnly(t, ents - {pat})
  {
    if t != [] {
      EntitiesOnlyShort(t[1..], pat, ents);
      if t[0] == '&' {
        var e :| e in ents && StartsWith(t, e);
        assert e in ents - {pat};
      }
    }
  }

  /** Deleting one entity from a text whose every `&` begins an entity leaves a text whose every
      `&` begins one of the other entities. */
  lemma {:induction false} DeleteEntity(t: string, pat: string, ents: set<string>)
    requires pat in ents && EntityShape(pat) && forall e :: e in ents ==> EntityShape(e)
    requires EntitiesOnly(t, ents)
    ensures EntitiesOnly(DeleteAll(t, pat), ents - {pat})
    decreases |t|
  {
    if |t| < |pat| {
      EntitiesOnlyShort(t, pat, ents);
    } else if t[..|pat|] == pat {
      EntitiesOnlyDrop(t, ents, |pat|);
      DeleteEntity(t[|pat|..], pat, ents);
    } else {
      var d := DeleteAll(t[1..], pat);
      DeleteEntity(t[1..], pat, ents);
      var u := [t[0]] + d;
      assert DeleteAll(t, pat) == u;
      assert u[1..] == d;
      if t[0] == '&' {
        var e :| e in ents && StartsWith(t, e);
        assert EntityShape(e);
        assert e != pat;
        assert StartsWith(t[1..], e[1..]) by {
          assert t[1..][..|e| - 1] == t[..|e|][1..];
        }
        DeleteAllPlainPrefix(e[1..], t[1..], pat);
        assert u[..|e|] == [t[0]] + d[..|e| - 1];
        assert e in ents - {pat};
      }
    }
  }

  lemma {:induction false} NoEntitiesNoAmpersand(t: string)
    requires EntitiesOnly(t, {})
    ensures '&' !in t
  {
    if t != [] {
      NoEntitiesNoAmpersand(t[1..]);
      assert t == [t[0]] + t[1..];
    }
  }

  /** A field rewritten by fix_voucher_html_chars raises no text issue in validate_vouchers. */
  lemma EscapedFieldPasses(s: string)
    ensures !HasHtml(Escape(s)) && !HasLooseAmpersand(Escape(s))
  {
    var t := Escape(s);
    EscapeRemovesSpecials(s);
    EscapeEntitiesOnly(s);
    EntitiesShaped();
    var e0 := Entities;
    var e1 := e0 - {"&amp;"};
    var e2 := e1 - {"&#x27;"};
    var e3 := e2 - {"&quot;"};
    var e4 := e3 - {"&lt;"};
    var t1 := DeleteAll(t, "&amp;");
    DeleteEntity(t, "&amp;", e0);
    var t2 := DeleteAll(t1, "&#x27;");
    DeleteEntity(t1, "&#x27;", e1);
    var t3 := DeleteAll(t2, "&quot;");
    DeleteEntity(t2, "&quot;", e2);
    var t4 := DeleteAll(t3, "&lt;");
    DeleteEntity(t3, "&lt;", e3);
    DeleteEntity(t4, "&gt;", e4);
    assert e4 - {"&gt;"} == {};
    NoEntitiesNoAmpersand(WithoutEntities(t));
  }

  /** After the fix, a voucher is flagged only for a missing field, its points or its quantity. */
  lemma FixedVoucherFlags(v: Voucher)
    ensures Flagged(Fixed(v)) <==>
      Fixed(v).title == [] || Fixed(v).description == [] || Fixed(v).terms == []
      || v.points <= 0 || v.quantityAvailable < 0
  {
    EscapedFieldPasses(v.title);
    EscapedFieldPasses(v.description);
    EscapedFieldPasses(v.terms);
  }
}
