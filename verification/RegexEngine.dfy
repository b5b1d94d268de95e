/** Compiling a pattern and searching with it: the machine decides the language the pattern denotes. */
module RegexEngine {
  import opened Ascii
  import opened RegexLanguage
  import opened RegexSyntax
  import opened RegexGrammar
  import opened RegexCompiler
  import RegexNfa
  import opened RegexSearch
  import opened Texts

  lemma DecodedCat(s: Source, t: Source)
    requires IsDecoded(s) && IsDecoded(t)
    ensures IsDecoded(s + t)
  {
  }

  lemma {:induction false} DecimalDecoded(n: nat)
    ensures IsDecoded(Decimal(n))
  {
    if n >= 10 {
      DecimalDecoded(n / 10);
    }
  }

  lemma QuantifierDecoded(q: Quantifier)
    ensures IsDecoded(QuantifierText(q))
  {
    if q.Exactly? || q.AtLeast? || q.Between? {
      DecimalDecoded(q.n);
      if q.Between? {
        DecimalDecoded(q.m);
      }
    }
  }

  lemma {:induction false} ItemsDecoded(items: seq<Item>, afterOne: bool, dash: bool)
    requires ItemsOk(items, afterOne, dash)
    ensures IsDecoded(ItemsText(items, dash))
    decreases |items|
  {
    if items != [] {
      ItemsDecoded(items[1..], items[0].One?, dash);
      assert IsDecoded(ItemText(items[0]));
      DecodedCat(ItemText(items[0]), ItemsText(items[1..], dash));
    }
  }

  /** A sentence is written in characters a decoder can deliver. */
  lemma {:induction false} TextDecoded(x: Sentence)
    requires IsSentence(x)
    ensures IsDecoded(Text(x))
  {
    match x
    case Char(_) =>
    case Escape(_) =>
    case Dot =>
    case Bracketed(_, items, dash) =>
      ItemsDecoded(items, false, dash);
    case Group(inner) =>
      TextDecoded(inner);
    case Quantified(operand, q) =>
      TextDecoded(operand);
      QuantifierDecoded(q);
      DecodedCat(Text(operand), QuantifierText(q));
    case Sequence(head, tail) =>
      TextDecoded(head);
      TextDecoded(tail);
      DecodedCat(Text(head), Text(tail));
    case Choice(head, tail) =>
      TextDecoded(head);
      TextDecoded(tail);
      DecodedCat([BAR], Text(tail));
      DecodedCat(Text(head), [BAR] + Text(tail));
  }

  lemma {:induction false} DenotesWellFormed(x: Sentence)
    requires IsSentence(x)
    ensures WellFormed(Denotes(x))
  {
    match x
    case Group(inner) =>
      DenotesWellFormed(inner);
    case Quantified(operand, q) =>
      DenotesWellFormed(operand);
    case Sequence(head, tail) =>
      DenotesWellFormed(head);
      DenotesWellFormed(tail);
    case Choice(head, tail) =>
      DenotesWellFormed(head);
      DenotesWellFormed(tail);
    case _ =>
  }

  /** Every pattern of the grammar compiles. */
  method Compile(x: Sentence, begin: bool, end: bool) returns (regex: GenericRegex)
    requires IsSentence(x)
    ensures fresh(regex) && regex.IsValid() && regex.Recognizes(Denotes(x))
    ensures regex.anchorBegin == begin && regex.anchorEnd == end
  {
    TextDecoded(x);
    ParserReadsGrammar(x, begin, end);
    assert IsDecoded(PatternText(x, begin, end));
    regex := new GenericRegex.Empty();
    regex.Parse(PatternText(x, begin, end));
  }

  /** `Match` terminates and holds exactly for the words of the pattern, when its unbounded repetitions are guarded. */
  method Match(x: Sentence, text: Word) returns (matched: bool)
    requires IsSentence(x) && Guarded(Denotes(x)) && IsDecoded(text)
    ensures matched <==> InLanguage(Denotes(x), text)
  {
    hide IsCompiled;
    var regex := Compile(x, false, false);
    CompiledShape(regex, Denotes(x));
    var search := new GenericRegexSearch(regex);
    matched := search.Match(text, Denotes(x));
  }

  /** `Search`, as the schema validator asks for a pattern in a string. */
  method Search(x: Sentence, begin: bool, end: bool, text: Word) returns (matched: bool)
    requires IsSentence(x) && Guarded(Denotes(x)) && IsDecoded(text)
    ensures matched <==> Found(Denotes(x), text, begin, end)
    ensures SearchIsExact(Denotes(x), begin, end) ==> (matched <==> Occurs(Denotes(x), text, begin, end))
  {
    hide IsCompiled;
    var regex := Compile(x, begin, end);
    CompiledShape(regex, Denotes(x));
    var search := new GenericRegexSearch(regex);
    matched := search.SearchWithAnchoring(text, regex.anchorBegin, regex.anchorEnd, Denotes(x));
    DenotesWellFormed(x);
    if SearchIsExact(Denotes(x), begin, end) {
      SearchFinds(Denotes(x), text, begin, end);
    }
  }

  lemma CompiledShape(regex: GenericRegex, re: Re)
    requires regex.Recognizes(re)
    ensures regex.states != [] && RegexNfa.RangesOk(regex.ranges) && RegexNfa.Nfa(regex.states, regex.ranges).Valid()
  {
  }
}
