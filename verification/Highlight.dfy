/** Highlight rules: an ordered list, first match wins per action. */
module Highlights {
  import opened Records
  import opened Filter

  datatype Action = Color | Digest | Tab | Notify

  /** `configured` says whether the rule's own criteria, before they are resolved, have an
      active axis. */
  datatype Rule = Rule(enabled: bool, configured: bool, actions: set<Action>)

  /** The winning rule per action, -1 for none. */
  datatype ActionMatch = ActionMatch(color: int, digest: int, tab: int, notify: int) {
    function ForAction(a: Action): int {
      match a
      case Color => color
      case Digest => digest
      case Tab => tab
      case Notify => notify
    }
  }

  const NO_MATCH := ActionMatch(-1, -1, -1, -1)

  /** What stands in for a rule whose criteria were not resolved yet. */
  const INERT := FilterSet(false, Trace, false, {}, false, {}, false, 0, 0, TextFilter(false, false, true, _ => true), true)

  datatype Memo = NotDecoded | Decoded(text: string)

  datatype HighlighterSet = HighlighterSet(rules: seq<Rule>, resolved: seq<FilterSet>) {

    function Criteria(i: nat): FilterSet {
      if i < |resolved| then resolved[i] else INERT
    }

    /** The rule admits the record before its text is looked at. */
    predicate Admits(i: nat, r: Record) {
      i < |rules| && rules[i].enabled && Criteria(i).AnyActive() && Criteria(i).AcceptsIntegerAxes(r)
    }

    predicate Matches(i: nat, r: Record, msg: string) {
      Admits(i, r) && Criteria(i).AcceptsText(msg)
    }

    predicate Wins(i: nat, a: Action, r: Record, msg: string) {
      Matches(i, r, msg) && a in rules[i].actions
    }

    /** `got` is the least index of a matching rule that carries the action, -1 for none. */
    ghost predicate IsFirst(got: int, a: Action, r: Record, msg: string) {
      if got < 0 then got == -1 && forall i: nat :: i < |rules| ==> !Wins(i, a, r, msg)
      else got < |rules| && Wins(got, a, r, msg) && forall i: nat :: i < got ==> !Wins(i, a, r, msg)
    }

    /** An action nothing in front of rule `i` has won. */
    ghost predicate Open(i: nat, a: Action, wanted: set<Action>, r: Record, msg: string) {
      a in wanted && forall j: nat :: j < i ==> !Wins(j, a, r, msg)
    }

    /** Rule `i` wins something still open exactly if its text matches. */
    ghost predicate NeedsText(i: nat, wanted: set<Action>, r: Record, msg: string) {
      && Admits(i, r) && Criteria(i).text.Active()
      && exists a :: a in rules[i].actions && Open(i, a, wanted, r, msg)
    }

    /** One of the first `n` rules hangs on the text. */
    ghost predicate Asked(n: nat, wanted: set<Action>, r: Record, msg: string) {
      exists i: nat :: i < n && NeedsText(i, wanted, r, msg)
    }

    /** The test of one rule's criteria, with the message decoded at most once across calls. */
    static method Accepts(fs: FilterSet, r: Record, memo: Memo, msg: string) returns (ok: bool, after: Memo, decodes: nat)
      requires memo == NotDecoded || memo == Decoded(msg)
      ensures ok <==> fs.AnyActive() && fs.AcceptsIntegerAxes(r) && fs.AcceptsText(msg)
      ensures after == if fs.AnyActive() && fs.AcceptsIntegerAxes(r) && fs.text.Active() then Decoded(msg) else memo
      ensures decodes == if memo == NotDecoded && after != NotDecoded then 1 else 0
    {
      after, decodes := memo, 0;
      if !fs.AnyActive() || !fs.AcceptsIntegerAxes(r) { return false, after, decodes; }
      if fs.text.Active() {
        if after == NotDecoded { after, decodes := Decoded(msg), decodes + 1; }
        if !fs.AcceptsText(after.text) { return false, after, decodes; }
      }
      return true, after, decodes;
    }

    /** Does one rule match, whatever the rules above it do. */
    method RuleMatches(i: int, r: Record, memo: Memo, msg: string) returns (ok: bool, after: Memo, decodes: nat)
      requires memo == NotDecoded || memo == Decoded(msg)
      ensures decodes == if memo == NotDecoded && after != NotDecoded then 1 else 0
      ensures ok <==> 0 <= i && Matches(i, r, msg)
      ensures after == if 0 <= i && Admits(i, r) && Criteria(i).text.Active() then Decoded(msg) else memo
    {
      if i < 0 || i >= |rules| || !rules[i].enabled { return false, memo, 0; }
      ok, after, decodes := Accepts(Criteria(i), r, memo, msg);
    }

    /** One pass answers every wanted action; the message is decoded at most once, and only
        when some rule's answer hangs on it. */
    method MatchActions(r: Record, wanted: set<Action>, msg: string) returns (out: ActionMatch, decodes: nat)
      ensures forall a :: a in wanted ==> IsFirst(out.ForAction(a), a, r, msg)
      ensures forall a :: a !in wanted ==> out.ForAction(a) == -1
      ensures decodes == if exists i: nat :: NeedsText(i, wanted, r, msg) then 1 else 0
    {
      hide NeedsText, Admits, Criteria, Matches, IsFirst, Open, Wins;
      out, decodes := NO_MATCH, 0;
      var remaining := wanted;
      var message := NotDecoded;
      var i := 0;
      AllOpen(wanted, r, msg);
      while i < |rules| && remaining != {}
        invariant i <= |rules| && remaining <= wanted
        invariant forall a :: a in remaining <==> Open(i, a, wanted, r, msg)
        invariant forall a :: a in wanted && a !in remaining ==> IsFirst(out.ForAction(a), a, r, msg)
        invariant forall a :: a !in wanted || a in remaining ==> out.ForAction(a) == -1
        invariant message == if Asked(i, wanted, r, msg) then Decoded(msg) else NotDecoded
        invariant decodes == if Asked(i, wanted, r, msg) then 1 else 0
      {
        var offers := rules[i].actions * remaining;
        RuleStep(i, offers, remaining, wanted, r, msg);
        AskedNext(i, wanted, r, msg);
        if rules[i].enabled && offers != {} {
          var ok: bool, d: nat;
          ok, message, d := Accepts(Criteria(i), r, message, msg);
          decodes := decodes + d;
          if ok {
            out := Answered(out, offers, i);
            remaining := remaining - offers;
          }
        }
        i := i + 1;
      }
      AskedAll(i, remaining, wanted, r, msg);
      NoneLeft(i, wanted, r, msg);
    }

    /** The answers with rule `i` put in for the actions it offers. */
    static method Answered(was: ActionMatch, offers: set<Action>, i: nat) returns (out: ActionMatch)
      ensures forall a :: out.ForAction(a) == if a in offers then i else was.ForAction(a)
    {
      out := was;
      if Color in offers { out := out.(color := i); }
      if Digest in offers { out := out.(digest := i); }
      if Tab in offers { out := out.(tab := i); }
      if Notify in offers { out := out.(notify := i); }
    }

    lemma AllOpen(wanted: set<Action>, r: Record, msg: string)
      ensures forall a :: a in wanted <==> Open(0, a, wanted, r, msg)
      ensures !Asked(0, wanted, r, msg)
    {
    }

    /** What looking at rule `i` comes to. */
    lemma RuleStep(i: nat, offers: set<Action>, remaining: set<Action>, wanted: set<Action>, r: Record, msg: string)
      requires i < |rules| && offers == rules[i].actions * remaining
      requires forall a :: a in remaining <==> Open(i, a, wanted, r, msg)
      ensures var fs := Criteria(i);
              var ok := rules[i].enabled && offers != {} && fs.AnyActive() && fs.AcceptsIntegerAxes(r) && fs.AcceptsText(msg);
              && (forall a :: Open(i + 1, a, wanted, r, msg) <==> a in remaining && !(ok && a in offers))
              && (forall a :: ok && a in offers ==> IsFirst(i, a, r, msg))
              && (NeedsText(i, wanted, r, msg) <==>
                    rules[i].enabled && offers != {} && fs.AnyActive() && fs.AcceptsIntegerAxes(r) && fs.text.Active())
    {
      hide FilterSet.AnyActive, FilterSet.AcceptsIntegerAxes, FilterSet.AcceptsText, TextFilter.Active, Criteria;
      OpenNext(i, wanted, r, msg);
      forall a | a in offers ensures a in rules[i].actions && Open(i, a, wanted, r, msg) {}
      forall a | Open(i, a, wanted, r, msg) && a in rules[i].actions ensures a in offers {}
    }

    /** What is open behind a rule: what was open before it, less what it wins. */
    lemma OpenNext(i: nat, wanted: set<Action>, r: Record, msg: string)
      ensures forall a :: Open(i + 1, a, wanted, r, msg) <==> Open(i, a, wanted, r, msg) && !Wins(i, a, r, msg)
    {
    }

    lemma AskedNext(i: nat, wanted: set<Action>, r: Record, msg: string)
      ensures Asked(i + 1, wanted, r, msg) <==> Asked(i, wanted, r, msg) || NeedsText(i, wanted, r, msg)
    {
      hide NeedsText;
    }

    /** When the pass ends early nothing behind it could still have asked. */
    lemma AskedAll(n: nat, remaining: set<Action>, wanted: set<Action>, r: Record, msg: string)
      requires n <= |rules| && (n == |rules| || remaining == {})
      requires forall a :: a in remaining <==> Open(n, a, wanted, r, msg)
      ensures Asked(n, wanted, r, msg) <==> exists i: nat :: NeedsText(i, wanted, r, msg)
    {
      forall i: nat | NeedsText(i, wanted, r, msg) ensures i < n {
        OpenShrinks(n, i, wanted, r, msg);
      }
    }

    lemma OpenShrinks(n: nat, i: nat, wanted: set<Action>, r: Record, msg: string)
      ensures n <= i ==> forall a :: Open(i, a, wanted, r, msg) ==> Open(n, a, wanted, r, msg)
    {
    }

    /** What is still open when the rules run out matches no rule. */
    lemma NoneLeft(n: nat, wanted: set<Action>, r: Record, msg: string)
      ensures n == |rules| ==> forall a :: Open(n, a, wanted, r, msg) ==> IsFirst(-1, a, r, msg)
    {
    }

    /** The single-action form. */
    method Match(r: Record, action: Action, msg: string) returns (i: int)
      ensures IsFirst(i, action, r, msg)
    {
      var out, _ := MatchActions(r, {action}, msg);
      return out.ForAction(action);
    }

    /** The one pass gives what a search per action would: there is only one first match. */
    lemma PassIsFourSearches(out: ActionMatch, wanted: set<Action>, searched: map<Action, int>, r: Record, msg: string)
      requires forall a :: a in wanted ==> IsFirst(out.ForAction(a), a, r, msg)
      requires searched.Keys == wanted && forall a :: a in wanted ==> IsFirst(searched[a], a, r, msg)
      ensures forall a :: a in wanted ==> out.ForAction(a) == searched[a]
    {
      forall a | a in wanted ensures out.ForAction(a) == searched[a] { FirstIsUnique(out.ForAction(a), searched[a], a, r, msg); }
    }

    lemma FirstIsUnique(x: int, y: int, a: Action, r: Record, msg: string)
      requires IsFirst(x, a, r, msg) && IsFirst(y, a, r, msg)
      ensures x == y
    {
      hide Wins;
      if 0 <= x { assert Wins(x, a, r, msg); }
      if 0 <= y { assert Wins(y, a, r, msg); }
    }

    /** A rule matches exactly when it is enabled, resolved, has an axis that is on, and every axis
        that is on accepts the record. */
    lemma MatchingRule(i: nat, r: Record, message: Record -> string)
      ensures Matches(i, r, message(r)) <==>
              && i < |rules| && i < |resolved| && rules[i].enabled
              && var f := resolved[i];
                 && (f.priorityEnabled || f.loggerEnabled || f.threadEnabled || f.timeEnabled || (f.text.enabled && !f.text.emptyPattern))
                 && f.Accepts(r, message)
    {
    }

    /** A rule that does not carry an action cannot take it away from one below it. */
    lemma NoShadow(i: nat, k: nat, a: Action, r: Record, msg: string)
      requires i < k < |rules| && a !in rules[i].actions && IsFirst(k, a, r, msg)
      ensures forall rule: Rule :: a !in rule.actions ==> this.(rules := rules[i := rule]).IsFirst(k, a, r, msg)
    {
      forall rule: Rule | a !in rule.actions ensures this.(rules := rules[i := rule]).IsFirst(k, a, r, msg) {
        var other := this.(rules := rules[i := rule]);
        assert Wins(k, a, r, msg) && other.Wins(k, a, r, msg);
        forall j: nat | j < k ensures !other.Wins(j, a, r, msg) { assert !Wins(j, a, r, msg); }
      }
    }
  }
}
