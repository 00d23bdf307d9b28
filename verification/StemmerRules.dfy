/**
  The stemmer told suffix by suffix, for every stem `x`: what each step makes of `x` followed by a suffix,
  of every other word, and of the words that the code gives as its examples.
 */
module StemmerRules {
  import opened Stemmer

  // ----- Suffixes -----

  lemma EndsIff(w: string, s: string)
    ensures EndsWith(w, s) <==> exists x: string :: w == x + s
  {
    if EndsWith(w, s) { assert w == w[..|w| - |s|] + s; }
    if x: string :| w == x + s { assert w[|w| - |s|..] == s; }
  }

  lemma Ends(x: string, s: string)
    ensures EndsWith(x + s, s) && (x + s)[..|x|] == x
  {
    assert (x + s)[|x|..] == s;
  }

  /** Different letters the same way from the end. */
  lemma Apart(x: string, s: string, t: string, back: nat)
    requires 0 < back <= |s| && back <= |t| && s[|s| - back] != t[|t| - back]
    ensures !EndsWith(x + s, t)
  {
    EndsDisagree(x + s, t, back);
  }

  lemma Longer(x: string, p: string, s: string)
    ensures EndsWith(x + s, p + s) <==> EndsWith(x, p)
  {
    hide EndsWith;
    EndsIff(x + s, p + s);
    EndsIff(x, p);
    if y: string :| x + s == y + (p + s) {
      assert (x + s)[..|x|] == x && (y + (p + s))[..|x|] == y + p;
    }
    if y: string :| x == y + p { assert x + s == y + (p + s); }
  }

  /** A stem counts alone as it does before a suffix. */
  lemma StemAlone(x: string, s: string)
    ensures Measure(x + s, |x|) == Measure(x, |x|) && HasVowel(x + s, |x|) == HasVowel(x, |x|)
  {
    assert (x + s)[..|x|] == x[..|x|];
    MeasurePrefix(x + s, x, |x|, |x|);
    VowelPrefix(x + s, x, |x|);
  }

  // ----- Letters -----

  predicate Aeiou(c: char) {
    c == 'a' || c == 'e' || c == 'i' || c == 'o' || c == 'u'
  }

  lemma OtherLetters(w: string, i: nat)
    requires i < |w| && w[i] != 'y'
    ensures Cons(w, i) <==> !Aeiou(w[i])
  {
  }

  /** Of several y in a row every second one is a vowel; which, depends on what is before them. */
  lemma {:induction false} YRun(w: string, p: nat, i: nat)
    requires p <= i < |w| && (forall q :: p <= q <= i ==> w[q] == 'y') && (p > 0 ==> w[p - 1] != 'y')
    ensures Cons(w, i) <==> ((i - p) % 2 == 0 <==> p == 0 || Aeiou(w[p - 1]))
    decreases i
  {
    if i > p { YRun(w, p, i - 1); }
  }

  /** A consonant follows a vowel. */
  predicate Turn(w: string, i: nat) {
    0 < i < |w| && !Cons(w, i - 1) && Cons(w, i)
  }

  /** The measure is the number of such places. */
  lemma {:induction false} MeasureIsCount(w: string, n: nat)
    requires n <= |w|
    ensures Measure(w, n) == |set i: nat | i < n && Turn(w, i)|
  {
    if n <= 1 {
      assert (set i: nat | i < n && Turn(w, i)) == {};
    } else {
      MeasureIsCount(w, n - 1);
      var before := set i: nat | i < n - 1 && Turn(w, i);
      assert (set i: nat | i < n && Turn(w, i)) == if Turn(w, n - 1) then before + {n - 1} else before;
      hide Turn, Measure;
    }
  }

  // ----- Steps 1a and 1c -----

  /** -sses, -ies, -ss and any other -s. */
  lemma Plurals(x: string)
    ensures Step1a(x + "sses") == x + "ss"
    ensures Step1a(x + "ies") == x + "i"
    ensures Step1a(x + "ss") == x + "ss"
    ensures x != [] && !EndsWith(x, "s") && !EndsWith(x, "sse") && !EndsWith(x, "ie") ==> Step1a(x + "s") == x
  {
    hide Step1a, EndsWith;
    PluralEs(x);
    PluralS(x);
    if x != [] && !EndsWith(x, "s") && !EndsWith(x, "sse") && !EndsWith(x, "ie") { OneS(x); }
  }

  lemma PluralEs(x: string)
    ensures Step1a(x + "sses") == x + "ss"
    ensures Step1a(x + "ies") == x + "i"
  {
    hide EndsWith;
    Ends(x, "sses");
    Ends(x, "ies");
    Apart(x, "ies", "sses", 3);
    assert (x + "sses")[..|x| + 2] == x + "ss";
  }

  lemma PluralS(x: string)
    ensures Step1a(x + "ss") == x + "ss"
  {
    hide EndsWith;
    Apart(x, "ss", "sses", 2);
    Apart(x, "ss", "ies", 2);
  }

  lemma OneS(x: string)
    requires x != [] && !EndsWith(x, "s") && !EndsWith(x, "sse") && !EndsWith(x, "ie")
    ensures Step1a(x + "s") == x
  {
    EndsIff(x, "s");
    hide EndsWith;
    Longer(x, "sse", "s");
    Longer(x, "ie", "s");
    assert "sse" + "s" == "sses" && "ie" + "s" == "ies";
    assert (x + "s")[..|x|] == x;
    assert x == x[..|x| - 1] + [x[|x| - 1]];
  }

  lemma NoPlural(w: string)
    requires |w| >= 2 && w[|w| - 1] != 's'
    ensures Step1a(w) == w
  {
  }

  lemma YBehindVowel(x: string)
    ensures Step1c(x + "y") == if HasVowel(x, |x|) then x + "i" else x + "y"
  {
    hide EndsWith, Cons, HasVowel;
    Ends(x, "y");
    StemAlone(x, "y");
  }

  /** A final y becomes i exactly when a vowel precedes it. */
  lemma FinalY(x: string)
    ensures (exists i :: 0 <= i < |x| && !Cons(x, i)) ==> Step1c(x + "y") == x + "i"
    ensures (forall i :: 0 <= i < |x| ==> Cons(x, i)) ==> Step1c(x + "y") == x + "y"
  {
    hide Step1c, Cons;
    YBehindVowel(x);
  }

  lemma NoFinalY(w: string)
    requires w == [] || w[|w| - 1] != 'y'
    ensures Step1c(w) == w
  {
    EndsDisagree(w, "y", 1);
  }

  // ----- Step 1b -----

  lemma Eed(x: string)
    ensures Step1b(x + "eed") == if Measure(x, |x|) > 0 then x + "ee" else x + "eed"
  {
    hide EndsWith, Measure, HasVowel;
    Ends(x, "eed");
    StemAlone(x, "eed");
    assert (x + "eed")[..|x| + 2] == x + "ee";
  }

  predicate WantsE(x: string) {
    EndsWith(x, "at") || EndsWith(x, "bl") || EndsWith(x, "iz")
  }

  /** It ends with one consonant twice. */
  predicate Doubled(x: string) {
    |x| >= 2 && x[|x| - 1] == x[|x| - 2] && Cons(x, |x| - 1)
  }

  /** It ends consonant, vowel, consonant, the last none of w, x, y. */
  predicate ShortEnd(x: string) {
    && |x| >= 3 && Cons(x, |x| - 3) && !Cons(x, |x| - 2) && Cons(x, |x| - 1)
    && x[|x| - 1] != 'w' && x[|x| - 1] != 'x' && x[|x| - 1] != 'y'
  }

  /** One of the two letters gone, but not of l, s or z. */
  predicate Undoubled(x: string, r: string)
    requires x != []
  {
    var c := x[|x| - 1];
    if c == 'l' || c == 's' || c == 'z' then r == x else r + [c] == x
  }

  /** What is left in place of a stem that lost -ed or -ing. */
  predicate Mended(x: string, r: string) {
    && (WantsE(x) ==> r == x + "e")
    && (!WantsE(x) && Doubled(x) ==> Undoubled(x, r))
    && (!WantsE(x) && !Doubled(x) ==> r == if Measure(x, |x|) == 1 && ShortEnd(x) then x + "e" else x)
  }

  lemma RepairedMends(x: string)
    requires x != []
    ensures Mended(x, Repaired(x))
  {
    hide Repaired, Trimmed, WantsE, Doubled, Undoubled, ShortEnd, Measure;
    RepairedIs(x);
    TrimmedMends(x);
  }

  lemma RepairedIs(x: string)
    requires x != []
    ensures Repaired(x) == if WantsE(x) then x + "e" else Trimmed(x)
  {
    hide Trimmed, EndsWith;
  }

  lemma TrimmedMends(x: string)
    requires x != []
    ensures Doubled(x) ==> Undoubled(x, Trimmed(x))
    ensures !Doubled(x) ==> Trimmed(x) == if Measure(x, |x|) == 1 && ShortEnd(x) then x + "e" else x
  {
    hide Measure, DoubleC, Doubled, Cvc, ShortEnd, Undoubled;
    SameEnds(x);
    if Doubled(x) { TrimmedDoubled(x); }
  }

  lemma TrimmedDoubled(x: string)
    requires x != [] && DoubleC(x, |x|)
    ensures Undoubled(x, Trimmed(x))
  {
    hide Measure, DoubleC, Cvc;
    LastOff(x);
  }

  lemma LastOff(x: string)
    requires x != []
    ensures x[..|x| - 1] + [x[|x| - 1]] == x
  {
  }

  lemma SameEnds(x: string)
    ensures DoubleC(x, |x|) <==> Doubled(x)
    ensures Cvc(x, |x|) <==> ShortEnd(x)
  {
    hide Cons;
  }

  /** -ed comes off behind a vowel. */
  lemma Ed(x: string)
    requires !EndsWith(x, "e")
    ensures if exists i :: 0 <= i < |x| && !Cons(x, i) then Mended(x, Step1b(x + "ed"))
            else Step1b(x + "ed") == x + "ed"
  {
    Ends(x, "ed");
    StemAlone(x, "ed");
    Longer(x, "e", "ed");
    assert "e" + "ed" == "eed";
    if HasVowel(x, |x|) { RepairedMends(x); }
    hide EndsWith, Measure, Cons, Repaired, Mended;
  }

  /** So does -ing. */
  lemma Ing(x: string)
    ensures if exists i :: 0 <= i < |x| && !Cons(x, i) then Mended(x, Step1b(x + "ing"))
            else Step1b(x + "ing") == x + "ing"
  {
    Ends(x, "ing");
    StemAlone(x, "ing");
    Apart(x, "ing", "eed", 1);
    Apart(x, "ing", "ed", 1);
    if HasVowel(x, |x|) { RepairedMends(x); }
    hide EndsWith, Measure, Cons, Repaired, Mended;
  }

  lemma NoEdOrIng(w: string)
    requires !EndsWith(w, "ed") && !EndsWith(w, "ing")
    ensures Step1b(w) == w
  {
    EedIsEd(w);
    hide EndsWith;
  }

  lemma EedIsEd(w: string)
    ensures EndsWith(w, "eed") ==> EndsWith(w, "ed")
  {
    if EndsWith(w, "eed") { assert w[|w| - 2..] == w[|w| - 3..][1..] == "ed"; }
  }

  // ----- Steps 2 to 4, row by row -----

  /** The suffix replaced behind more than `least` boundaries. */
  function To(x: string, suffix: string, repl: string, least: nat): string {
    if Measure(x, |x|) > least then x + repl else x + suffix
  }

  lemma RowIn(groups: seq<Group>, back: nat, gi: nat, i: nat, x: string, rule: Rule)
    requires back > 0 && Grouped(groups, back) && gi < |groups| && i < |groups[gi].rules|
    requires groups[gi].rules[i] == rule && Fits(x + rule.suffix, rule)
    requires NoneBefore(groups[gi].rules, i, x + rule.suffix)
    ensures ApplyFirst(Table(groups), x + rule.suffix) == To(x, rule.suffix, rule.repl, rule.least)
  {
    var w := x + rule.suffix;
    assert Keyed(groups[gi], back);
    assert w[|w| - back] == rule.suffix[|rule.suffix| - back] == groups[gi].letter;
    StemAlone(x, rule.suffix);
    Ends(x, rule.suffix);
    Dispatch(groups, back, w, groups[gi].letter);
    BranchOf(groups, gi);
    hide ApplyFirst, Branch, Table, Measure, Fits, NoneBefore, HasVowel;
    FirstFits(groups[gi].rules, w, i);
  }

  lemma Row2(gi: nat, i: nat, x: string, suffix: string, repl: string)
    requires gi < |STEP2| && i < |STEP2[gi].rules| && STEP2[gi].rules[i] == Rule(suffix, repl)
    requires NoneBefore(STEP2[gi].rules, i, x + suffix)
    ensures Step2(x + suffix) == To(x, suffix, repl, 0)
  {
    hide Table, ApplyFirst, To, NoneBefore, Grouped;
    Step2Grouped();
    Ends(x, suffix);
    RowIn(STEP2, 2, gi, i, x, Rule(suffix, repl));
  }

  lemma Row3(gi: nat, i: nat, x: string, suffix: string, repl: string)
    requires gi < |STEP3| && i < |STEP3[gi].rules| && STEP3[gi].rules[i] == Rule(suffix, repl)
    requires NoneBefore(STEP3[gi].rules, i, x + suffix)
    ensures Step3(x + suffix) == To(x, suffix, repl, 0)
  {
    hide Table, ApplyFirst, To, NoneBefore, Grouped;
    Step3Grouped();
    Ends(x, suffix);
    RowIn(STEP3, 1, gi, i, x, Rule(suffix, repl));
  }

  lemma Row4(gi: nat, i: nat, x: string, suffix: string)
    requires gi < |STEP4| && i < |STEP4[gi].rules| && STEP4[gi].rules[i] == Rule(suffix, "", 1)
    requires NoneBefore(STEP4[gi].rules, i, x + suffix)
    ensures Step4(x + suffix) == To(x, suffix, "", 1)
  {
    hide Table, ApplyFirst, To, NoneBefore, Grouped;
    Step4Grouped();
    Ends(x, suffix);
    RowIn(STEP4, 2, gi, i, x, Rule(suffix, "", 1));
  }

  lemma Rows2A(x: string)
    ensures Step2(x + "ational") == To(x, "ational", "ate", 0)
    ensures !EndsWith(x, "a") ==> Step2(x + "tional") == To(x, "tional", "tion", 0)
  {
    hide To, Step2;
    Row2(0, 0, x, "ational", "ate");
    Longer(x, "a", "tional");
    assert "a" + "tional" == "ational";
    hide EndsWith;
    if !EndsWith(x, "a") { Row2(0, 1, x, "tional", "tion"); }
  }

  lemma Rows2CEG(x: string)
    ensures Step2(x + "enci") == To(x, "enci", "ence", 0)
    ensures Step2(x + "anci") == To(x, "anci", "ance", 0)
    ensures Step2(x + "izer") == To(x, "izer", "ize", 0)
    ensures Step2(x + "logi") == To(x, "logi", "log", 0)
  {
    hide To, Step2;
    Row2(1, 0, x, "enci", "ence");
    Apart(x, "anci", "enci", 4);
    hide EndsWith;
    Row2(1, 1, x, "anci", "ance");
    Row2(2, 0, x, "izer", "ize");
    Row2(7, 0, x, "logi", "log");
  }

  lemma Rows2L(x: string)
    ensures Step2(x + "bli") == To(x, "bli", "ble", 0)
    ensures Step2(x + "alli") == To(x, "alli", "al", 0)
    ensures Step2(x + "entli") == To(x, "entli", "ent", 0)
    ensures Step2(x + "eli") == To(x, "eli", "e", 0)
    ensures Step2(x + "ousli") == To(x, "ousli", "ous", 0)
  {
    hide To, Step2, EndsWith;
    Row2(3, 0, x, "bli", "ble");
    Apart(x, "alli", "bli", 3);
    Row2(3, 1, x, "alli", "al");
    Apart(x, "entli", "bli", 3);
    Apart(x, "entli", "alli", 3);
    Row2(3, 2, x, "entli", "ent");
    Apart(x, "eli", "bli", 3);
    Apart(x, "eli", "alli", 3);
    Apart(x, "eli", "entli", 3);
    Row2(3, 3, x, "eli", "e");
    Apart(x, "ousli", "bli", 3);
    Apart(x, "ousli", "alli", 3);
    Apart(x, "ousli", "entli", 3);
    Apart(x, "ousli", "eli", 3);
    Row2(3, 4, x, "ousli", "ous");
  }

  lemma Rows2O(x: string)
    ensures Step2(x + "ization") == To(x, "ization", "ize", 0)
    ensures !EndsWith(x, "iz") ==> Step2(x + "ation") == To(x, "ation", "ate", 0)
    ensures Step2(x + "ator") == To(x, "ator", "ate", 0)
  {
    hide To, Step2, EndsWith;
    Row2(4, 0, x, "ization", "ize");
    Longer(x, "iz", "ation");
    assert "iz" + "ation" == "ization";
    if !EndsWith(x, "iz") { Row2(4, 1, x, "ation", "ate"); }
    Apart(x, "ator", "ization", 1);
    Apart(x, "ator", "ation", 1);
    Row2(4, 2, x, "ator", "ate");
  }

  lemma Rows2S(x: string)
    ensures Step2(x + "alism") == To(x, "alism", "al", 0)
    ensures Step2(x + "iveness") == To(x, "iveness", "ive", 0)
    ensures Step2(x + "fulness") == To(x, "fulness", "ful", 0)
    ensures Step2(x + "ousness") == To(x, "ousness", "ous", 0)
  {
    hide To, Step2, EndsWith;
    Row2(5, 0, x, "alism", "al");
    Apart(x, "iveness", "alism", 1);
    Row2(5, 1, x, "iveness", "ive");
    Apart(x, "fulness", "alism", 1);
    Apart(x, "fulness", "iveness", 5);
    Row2(5, 2, x, "fulness", "ful");
    Apart(x, "ousness", "alism", 1);
    Apart(x, "ousness", "iveness", 5);
    Apart(x, "ousness", "fulness", 5);
    Row2(5, 3, x, "ousness", "ous");
  }

  lemma Rows2T(x: string)
    ensures Step2(x + "aliti") == To(x, "aliti", "al", 0)
    ensures Step2(x + "iviti") == To(x, "iviti", "ive", 0)
    ensures Step2(x + "biliti") == To(x, "biliti", "ble", 0)
  {
    hide To, Step2, EndsWith;
    Row2(6, 0, x, "aliti", "al");
    Apart(x, "iviti", "aliti", 4);
    Row2(6, 1, x, "iviti", "ive");
    Apart(x, "biliti", "aliti", 5);
    Apart(x, "biliti", "iviti", 4);
    Row2(6, 2, x, "biliti", "ble");
  }

  lemma Rows3(x: string)
    ensures Step3(x + "icate") == To(x, "icate", "ic", 0)
    ensures Step3(x + "ative") == To(x, "ative", "", 0)
    ensures Step3(x + "alize") == To(x, "alize", "al", 0)
    ensures Step3(x + "iciti") == To(x, "iciti", "ic", 0)
    ensures Step3(x + "ical") == To(x, "ical", "ic", 0)
    ensures Step3(x + "ful") == To(x, "ful", "", 0)
    ensures Step3(x + "ness") == To(x, "ness", "", 0)
  {
    hide To, Step3, EndsWith;
    Row3(0, 0, x, "icate", "ic");
    Apart(x, "ative", "icate", 2);
    Row3(0, 1, x, "ative", "");
    Apart(x, "alize", "icate", 2);
    Apart(x, "alize", "ative", 2);
    Row3(0, 2, x, "alize", "al");
    Row3(1, 0, x, "iciti", "ic");
    Row3(2, 0, x, "ical", "ic");
    Apart(x, "ful", "ical", 2);
    Row3(2, 1, x, "ful", "");
    Row3(3, 0, x, "ness", "");
  }

  lemma Rows4AtoL(x: string)
    ensures Step4(x + "al") == To(x, "al", "", 1)
    ensures Step4(x + "ance") == To(x, "ance", "", 1)
    ensures Step4(x + "ence") == To(x, "ence", "", 1)
    ensures Step4(x + "er") == To(x, "er", "", 1)
    ensures Step4(x + "ic") == To(x, "ic", "", 1)
    ensures Step4(x + "able") == To(x, "able", "", 1)
    ensures Step4(x + "ible") == To(x, "ible", "", 1)
  {
    hide To, Step4, EndsWith;
    Row4(0, 0, x, "al");
    Row4(1, 0, x, "ance");
    Apart(x, "ence", "ance", 4);
    Row4(1, 1, x, "ence");
    Row4(2, 0, x, "er");
    Row4(3, 0, x, "ic");
    Row4(4, 0, x, "able");
    Apart(x, "ible", "able", 4);
    Row4(4, 1, x, "ible");
  }

  lemma Rows4N(x: string)
    ensures Step4(x + "ant") == To(x, "ant", "", 1)
    ensures Step4(x + "ement") == To(x, "ement", "", 1)
    ensures !EndsWith(x, "e") ==> Step4(x + "ment") == To(x, "ment", "", 1)
    ensures !EndsWith(x, "m") ==> Step4(x + "ent") == To(x, "ent", "", 1)
  {
    hide To, Step4, EndsWith;
    Row4(5, 0, x, "ant");
    Apart(x, "ement", "ant", 3);
    Row4(5, 1, x, "ement");
    Apart(x, "ment", "ant", 3);
    Longer(x, "e", "ment");
    assert "e" + "ment" == "ement";
    if !EndsWith(x, "e") { Row4(5, 2, x, "ment"); }
    Apart(x, "ent", "ant", 3);
    if !EndsWith(x, "m") { NoMent(x); Row4(5, 3, x, "ent"); }
  }

  lemma NoMent(x: string)
    requires !EndsWith(x, "m")
    ensures !EndsWith(x + "ent", "ment") && !EndsWith(x + "ent", "ement")
  {
    Longer(x, "m", "ent");
    assert "m" + "ent" == "ment";
    Longer(x, "em", "ent");
    assert "em" + "ent" == "ement";
    EmIsM(x);
    hide EndsWith;
  }

  lemma EmIsM(x: string)
    ensures EndsWith(x, "em") ==> EndsWith(x, "m")
  {
    if EndsWith(x, "em") { assert x[|x| - 1..] == x[|x| - 2..][1..] == "m"; }
  }

  /** -ion comes off only behind an s or a t. */
  lemma Rows4O(x: string)
    ensures EndsWith(x, "s") || EndsWith(x, "t") ==> Step4(x + "ion") == To(x, "ion", "", 1)
    ensures !EndsWith(x, "s") && !EndsWith(x, "t") ==> Step4(x + "ion") == x + "ion"
    ensures Step4(x + "ou") == To(x, "ou", "", 1)
  {
    hide To, Step4, EndsWith;
    IonRow(x);
    Apart(x, "ou", "ion", 1);
    Row4(6, 1, x, "ou");
  }

  lemma IonRow(x: string)
    ensures EndsWith(x, "s") || EndsWith(x, "t") ==> Step4(x + "ion") == To(x, "ion", "", 1)
    ensures !EndsWith(x, "s") && !EndsWith(x, "t") ==> Step4(x + "ion") == x + "ion"
  {
    var w := x + "ion";
    Ends(x, "ion");
    StemAlone(x, "ion");
    EndsIff(x, "s");
    EndsIff(x, "t");
    IonBranch(w);
    hide EndsWith, Measure, HasVowel;
    if |x| > 0 { assert x == x[..|x| - 1] + [x[|x| - 1]]; }
    if EndsWith(x, "s") || EndsWith(x, "t") {
      IonTaken(w);
    } else {
      IonOther(w);
      IonNotOu(w);
      NoneFits(O4, w);
    }
  }

  lemma IonBranch(w: string)
    requires EndsWith(w, "ion")
    ensures Step4(w) == ApplyFirst(O4, w)
  {
    Step4Grouped();
    assert w[|w| - 2] == w[|w| - 3..][1] == 'o';
    Dispatch(STEP4, 2, w, 'o');
    BranchOf(STEP4, 6);
  }

  lemma Rows4StoZ(x: string)
    ensures Step4(x + "ism") == To(x, "ism", "", 1)
    ensures Step4(x + "ate") == To(x, "ate", "", 1)
    ensures Step4(x + "iti") == To(x, "iti", "", 1)
    ensures Step4(x + "ous") == To(x, "ous", "", 1)
    ensures Step4(x + "ive") == To(x, "ive", "", 1)
    ensures Step4(x + "ize") == To(x, "ize", "", 1)
  {
    hide To, Step4, EndsWith;
    Row4(7, 0, x, "ism");
    Row4(8, 0, x, "ate");
    Apart(x, "iti", "ate", 1);
    Row4(8, 1, x, "iti");
    Row4(9, 0, x, "ous");
    Row4(10, 0, x, "ive");
    Row4(11, 0, x, "ize");
  }

  // ----- Step 5 -----

  lemma ShortStem(x: string)
    ensures Cvc(x + "e", |x|) <==> ShortEnd(x)
  {
    hide Cons;
    if |x| >= 3 {
      assert (x + "e")[..|x|] == x[..|x|];
      ConsPrefix(x + "e", x, |x|, |x| - 1);
      ConsPrefix(x + "e", x, |x|, |x| - 2);
      ConsPrefix(x + "e", x, |x|, |x| - 3);
    }
  }

  lemma LlEnds(x: string)
    ensures EndsWith(x, "ll") <==> |x| >= 2 && x[|x| - 1] == 'l' && x[|x| - 2] == 'l'
  {
    if |x| >= 2 { assert x[|x| - 2..] == [x[|x| - 2], x[|x| - 1]]; }
  }

  /** A final -e, judged with the boundaries of the whole word, and one of the -ll that shows then. */
  lemma FinalE(x: string)
    ensures var w, a := x + "e", Measure(x + "e", |x + "e"|);
            && (a == 0 || (a == 1 && ShortEnd(x)) ==> Step5(w) == w)
            && (a == 1 && !ShortEnd(x) ==> Step5(w) == x)
            && (a > 1 && !EndsWith(x, "ll") ==> Step5(w) == x)
            && (a > 1 && EndsWith(x, "ll") ==> Step5(w) + "l" == x)
  {
    hide EndsWith, ShortEnd, Measure, DropE, DoubleC, Step5;
    var w, a := x + "e", Measure(x + "e", |x + "e"|);
    DropsE(x, a);
    LlEnds(x);
    TwoLs(x);
    Step5Is(w);
    assert w[|w| - 1] == 'e';
  }

  lemma Step5Is(w: string)
    requires w != []
    ensures var a := Measure(w, |w|);
            var v := DropE(w, a);
            if v != [] && v[|v| - 1] == 'l' && DoubleC(v, |v|) && a > 1 then Step5(w) + "l" == v else Step5(w) == v
  {
    hide DropE, DoubleC, Measure;
    var v := DropE(w, Measure(w, |w|));
    if v != [] { LastOff(v); }
  }

  lemma DropsE(x: string, a: nat)
    ensures DropE(x + "e", a) == if a > 1 || (a == 1 && !ShortEnd(x)) then x else x + "e"
  {
    hide ShortEnd, Cvc;
    ShortStem(x);
    assert (x + "e")[..|x|] == x;
  }

  lemma TwoLs(x: string)
    ensures |x| > 0 && x[|x| - 1] == 'l' ==> (DoubleC(x, |x|) <==> |x| >= 2 && x[|x| - 2] == 'l')
  {
  }

  lemma FinalLl(x: string)
    ensures Step5(x + "ll") == if Measure(x + "ll", |x + "ll"|) > 1 then x + "l" else x + "ll"
  {
    hide Measure;
    assert (x + "ll")[..|x| + 1] == x + "l";
  }

  lemma NoFinalEOrLl(w: string)
    requires w != [] && w[|w| - 1] != 'e' && !EndsWith(w, "ll")
    ensures Step5(w) == w
  {
    LlEnds(w);
    hide EndsWith, Measure;
  }

  // ----- Words that no row fits -----

  lemma {:induction false} NoneInGroups(groups: seq<Group>, w: string)
    requires forall i :: 0 <= i < |groups| ==> NoneMatch(groups[i].rules, w)
    ensures NoneMatch(Table(groups), w)
  {
    if groups != [] {
      assert NoneMatch(groups[0].rules, w);
      NoneInGroups(groups[1..], w);
    }
  }

  lemma NoRow2(w: string)
    requires !EndsWith(w, "ational") && !EndsWith(w, "tional") && !EndsWith(w, "enci") && !EndsWith(w, "anci")
    requires !EndsWith(w, "izer") && !EndsWith(w, "bli") && !EndsWith(w, "alli") && !EndsWith(w, "entli")
    requires !EndsWith(w, "eli") && !EndsWith(w, "ousli") && !EndsWith(w, "ization") && !EndsWith(w, "ation")
    requires !EndsWith(w, "ator") && !EndsWith(w, "alism") && !EndsWith(w, "iveness") && !EndsWith(w, "fulness")
    requires !EndsWith(w, "ousness") && !EndsWith(w, "aliti") && !EndsWith(w, "iviti") && !EndsWith(w, "biliti")
    requires !EndsWith(w, "logi")
    ensures Step2(w) == w
  {
    hide EndsWith, Table, ApplyFirst;
    NoneInGroups(STEP2, w);
    ApplyNone(Table(STEP2), w);
  }

  lemma NoRow3(w: string)
    requires !EndsWith(w, "icate") && !EndsWith(w, "ative") && !EndsWith(w, "alize") && !EndsWith(w, "iciti")
    requires !EndsWith(w, "ical") && !EndsWith(w, "ful") && !EndsWith(w, "ness")
    ensures Step3(w) == w
  {
    hide EndsWith, Table, ApplyFirst;
    NoneInGroups(STEP3, w);
    ApplyNone(Table(STEP3), w);
  }

  lemma NoRow4(w: string)
    requires !EndsWith(w, "al") && !EndsWith(w, "ance") && !EndsWith(w, "ence") && !EndsWith(w, "er")
    requires !EndsWith(w, "ic") && !EndsWith(w, "able") && !EndsWith(w, "ible") && !EndsWith(w, "ant")
    requires !EndsWith(w, "ement") && !EndsWith(w, "ment") && !EndsWith(w, "ent") && !EndsWith(w, "ion")
    requires !EndsWith(w, "ou") && !EndsWith(w, "ism") && !EndsWith(w, "ate") && !EndsWith(w, "iti")
    requires !EndsWith(w, "ous") && !EndsWith(w, "ive") && !EndsWith(w, "ize")
    ensures Step4(w) == w
  {
    hide EndsWith, Table, ApplyFirst;
    NoneInGroups(STEP4, w);
    ApplyNone(Table(STEP4), w);
  }

  /** No rule of a branch fits a word with other letters there. */
  lemma BranchQuiet(groups: seq<Group>, back: nat, gi: nat, w: string)
    requires 0 < back <= |w| && Grouped(groups, back) && gi < |groups| && w[|w| - back] == groups[gi].letter
    requires NoneMatch(groups[gi].rules, w)
    ensures ApplyFirst(Table(groups), w) == w
  {
    hide NoneMatch, ApplyFirst, Table, Branch;
    Dispatch(groups, back, w, w[|w| - back]);
    BranchOf(groups, gi);
    ApplyNone(groups[gi].rules, w);
  }

  lemma LetterQuiet(groups: seq<Group>, back: nat, w: string)
    requires 0 < back <= |w| && Grouped(groups, back)
    requires forall i :: 0 <= i < |groups| ==> groups[i].letter != w[|w| - back]
    ensures ApplyFirst(Table(groups), w) == w
  {
    hide NoneMatch, Table, Branch;
    Dispatch(groups, back, w, w[|w| - back]);
    BranchNone(groups, w[|w| - back]);
  }

  lemma Quiet2(w: string)
    requires |w| >= 2
    requires var c := w[|w| - 2];
             c != 'a' && c != 'c' && c != 'e' && c != 'l' && c != 'o' && c != 's' && c != 't' && c != 'g'
    ensures Step2(w) == w
  {
    hide Table, ApplyFirst, Grouped;
    Step2Grouped();
    LetterQuiet(STEP2, 2, w);
  }

  lemma Quiet3(w: string)
    requires w != [] && var c := w[|w| - 1]; c != 'e' && c != 'i' && c != 'l' && c != 's'
    ensures Step3(w) == w
  {
    hide Table, ApplyFirst, Grouped;
    Step3Grouped();
    LetterQuiet(STEP3, 1, w);
  }

  lemma Quiet4(w: string)
    requires |w| >= 2
    requires var c := w[|w| - 2];
             && c != 'a' && c != 'c' && c != 'e' && c != 'i' && c != 'l' && c != 'n'
             && c != 'o' && c != 's' && c != 't' && c != 'u' && c != 'v' && c != 'z'
    ensures Step4(w) == w
  {
    hide Table, ApplyFirst, Grouped;
    Step4Grouped();
    LetterQuiet(STEP4, 2, w);
  }

  /** Step 1 has nothing to do with a word that ends in none of s, d, g, y. */
  lemma Quiet1(w: string)
    requires |w| >= 2 && w[|w| - 1] != 's' && w[|w| - 1] != 'd' && w[|w| - 1] != 'g'
    ensures Step1a(w) == w && Step1b(w) == w && (w[|w| - 1] != 'y' ==> Step1c(w) == w)
  {
    hide EndsWith;
    NoPlural(w);
    EndsDisagree(w, "ed", 1);
    EndsDisagree(w, "ing", 1);
    NoEdOrIng(w);
    if w[|w| - 1] != 'y' { NoFinalY(w); }
  }
}
