/** The country list guard, the two default picks and the question template. */
module Prompt {
  import opened Text

  datatype Option<T> = None | Some(value: T)

  /** The two countries the user has picked. */
  datatype Selection = Selection(residence: string, destination: string)

  const QuestionLead: string := "I live in "
  const QuestionMiddle: string := " and I am donating money to "
  const QuestionTail: string := ", would I get a tax break?"

  /** The question sent for a selection. */
  function Question(residence: string, destination: string): string {
    QuestionLead + residence + QuestionMiddle + destination + QuestionTail
  }

  /** Where each of five concatenated parts sits in the whole. */
  lemma Concat5(a: string, b: string, c: string, d: string, e: string)
    ensures var q := a + b + c + d + e;
      |q| == |a| + |b| + |c| + |d| + |e|
      && IsPrefix(a, q) && IsPrefix(b, q[|a|..]) && IsPrefix(c, q[|a| + |b|..])
      && IsPrefix(d, q[|a| + |b| + |c|..]) && q[|q| - |e|..] == e
  {
    var q := a + b + c + d + e;
    assert q[|a|..] == b + c + d + e;
    assert q[|a| + |b|..] == c + d + e;
    assert q[|a| + |b| + |c|..] == d + e;
  }

  /** The residence and the destination appear verbatim in their slots of
      the fixed template, and nothing else varies. */
  lemma QuestionLayout(residence: string, destination: string)
    ensures var q := Question(residence, destination);
      |q| == |QuestionLead| + |residence| + |QuestionMiddle| + |destination| + |QuestionTail|
      && IsPrefix(QuestionLead, q)
      && IsPrefix(residence, q[|QuestionLead|..])
      && IsPrefix(QuestionMiddle, q[|QuestionLead| + |residence|..])
      && IsPrefix(destination, q[|QuestionLead| + |residence| + |QuestionMiddle|..])
      && q[|q| - |QuestionTail|..] == QuestionTail
  {
    Concat5(QuestionLead, residence, QuestionMiddle, destination, QuestionTail);
  }

  /** Both picked names occur in the question. */
  lemma QuestionMentionsBoth(residence: string, destination: string)
    ensures IsInfix(residence, Question(residence, destination))
    ensures IsInfix(destination, Question(residence, destination))
  {
    var q := Question(residence, destination);
    QuestionLayout(residence, destination);
    var r := |QuestionLead|;
    var d := |QuestionLead| + |residence| + |QuestionMiddle|;
    assert IsPrefix(residence, q[r..]);
    assert IsPrefix(destination, q[d..]);
  }

  /** The selection the two pickers start from: entry 0 for the residence and
      entry 1 for the destination. A picker whose start index is not an index
      of its options fails, so there is no selection when the list has fewer
      than two entries. */
  function DefaultSelection(countries: seq<string>): (r: Option<Selection>)
    ensures r.Some? <==> |countries| >= 2
    ensures r.Some? ==> r.value.residence in countries && r.value.destination in countries
    ensures r.Some? ==> r.value.residence == countries[0] && r.value.destination == countries[1]
  {
    if |countries| >= 2 then Some(Selection(countries[0], countries[1])) else None
  }

  /** The startup guard as written: the script goes on whenever the country
      list is non-empty. */
  function ListGuardAsWritten(countries: seq<string>): bool {
    countries != []
  }

  /** The as-written guard lets through a one-country list, for which the
      destination picker has no entry 1 to start from. */
  lemma GuardAdmitsSingleCountry()
    ensures ListGuardAsWritten(["Afghanistan"])
    ensures DefaultSelection(["Afghanistan"]) == None
  {
  }

  /** The guard the pickers need: the script goes on exactly when both
      default picks exist. */
  function ListGuard(countries: seq<string>): (proceeds: bool)
    ensures proceeds <==> DefaultSelection(countries).Some?
    ensures proceeds ==> ListGuardAsWritten(countries)
  {
    |countries| >= 2
  }

  // The example question, assembled a few characters at a time.

  lemma SpellResidence()
    ensures QuestionLead + "Afghanistan" == "I live in Afghanistan"
  { }

  lemma SpellMiddle()
    ensures "I live in Afghanistan" + QuestionMiddle
      == "I live in Afghanistan and I am donating money to "
  { }

  lemma SpellDestination()
    ensures "I live in Afghanistan and I am donating money to " + "Albania"
      == "I live in Afghanistan and I am donating money to Albania"
  { }

  lemma SpellTail()
    ensures QuestionTail == ", would I get" + " a tax break?"
    ensures "I live in Afghanistan and I am donating money to Albania" + ", would I get"
      == "I live in Afghanistan and I am donating money to Albania, would I get"
  { }

  lemma SpellEnd()
    ensures "I live in Afghanistan and I am donating money to Albania, would I get" + " a tax break?"
      == "I live in Afghanistan and I am donating money to Albania, would I get a tax break?"
  { }

  /** The default picks on the start of an English country list, and the
      exact question they compose. */
  lemma DefaultQuestionExample()
    ensures DefaultSelection(["Afghanistan", "Albania", "Algeria"])
      == Some(Selection("Afghanistan", "Albania"))
    ensures Question("Afghanistan", "Albania")
      == "I live in Afghanistan and I am donating money to Albania, would I get a tax break?"
  {
    SpellResidence();
    SpellMiddle();
    SpellDestination();
    SpellTail();
    SpellEnd();
    var x := "I live in Afghanistan and I am donating money to Albania";
    assert x + (", would I get" + " a tax break?") == x + ", would I get" + " a tax break?";
  }
}
