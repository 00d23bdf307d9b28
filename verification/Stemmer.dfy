/**
  The Porter stemmer (words_stem_en.py): six steps that edit a buffer through three indices.  The
  reference meaning is a function on plain words; dispatch on a character is only a shortcut there.
 */
module Stemmer {

  // ----- Letters -----

  /** Whether letter `i` is a consonant: `y` is one at the start and after a vowel. */
  predicate Cons(w: string, i: nat)
    requires i < |w|
    decreases i
  {
    if w[i] == 'a' || w[i] == 'e' || w[i] == 'i' || w[i] == 'o' || w[i] == 'u' then false
    else if w[i] == 'y' then i == 0 || !Cons(w, i - 1)
    else true
  }

  /** A consonant right after a vowel. */
  predicate Boundary(w: string, i: nat)
    requires 0 < i < |w|
  {
    !Cons(w, i - 1) && Cons(w, i)
  }

  /** The number of vowel-to-consonant boundaries in the first `n` letters. */
  function Measure(w: string, n: nat): nat
    requires n <= |w|
  {
    if n <= 1 then 0 else Measure(w, n - 1) + (if Boundary(w, n - 1) then 1 else 0)
  }

  predicate HasVowel(w: string, n: nat)
    requires n <= |w|
  {
    exists i :: 0 <= i < n && !Cons(w, i)
  }

  predicate EndsWith(w: string, s: string) {
    |s| <= |w| && w[|w| - |s|..] == s
  }

  predicate DoubleC(w: string, n: nat)
    requires n <= |w|
  {
    n >= 2 && w[n - 1] == w[n - 2] && Cons(w, n - 1)
  }

  /** The first `n` letters end consonant, vowel, consonant, the last not w, x or y. */
  predicate Cvc(w: string, n: nat)
    requires n <= |w|
  {
    n >= 3 && Cons(w, n - 1) && !Cons(w, n - 2) && Cons(w, n - 3) && w[n - 1] != 'w' && w[n - 1] != 'x' &&
        w[n - 1] != 'y'
  }

  lemma {:induction false} ConsPrefix(a: string, b: string, n: nat, i: nat)
    requires i < n <= |a| && n <= |b| && a[..n] == b[..n]
    ensures Cons(a, i) == Cons(b, i)
    decreases i
  {
    assert a[i] == a[..n][i] == b[..n][i] == b[i];
    if i > 0 { ConsPrefix(a, b, n, i - 1); }
  }

  /** Only the first `n` letters matter. */
  lemma {:induction false} MeasurePrefix(a: string, b: string, n: nat, m: nat)
    requires m <= n <= |a| && n <= |b| && a[..n] == b[..n]
    ensures Measure(a, m) == Measure(b, m)
    decreases m
  {
    if m > 1 {
      MeasurePrefix(a, b, n, m - 1);
      ConsPrefix(a, b, n, m - 1);
      ConsPrefix(a, b, n, m - 2);
    }
  }

  lemma VowelPrefix(a: string, b: string, n: nat)
    requires n <= |a| && n <= |b| && a[..n] == b[..n]
    ensures HasVowel(a, n) == HasVowel(b, n)
  {
    forall i | 0 <= i < n ensures Cons(a, i) == Cons(b, i) {
      ConsPrefix(a, b, n, i);
    }
  }

  // ----- Rules -----

  /** Replace a suffix when what is left has more than `least` boundaries; `afterST`: only behind an s or t. */
  datatype Rule = Rule(suffix: string, repl: string, least: nat := 0, afterST: bool := false)

  predicate Fits(w: string, rule: Rule) {
    EndsWith(w, rule.suffix) &&
    (rule.afterST ==> |w| > |rule.suffix| && (w[|w| - |rule.suffix| - 1] == 's' || w[|w| - |rule.suffix| - 1] == 't'))
  }

  function Replaced(w: string, n: nat, repl: string, least: nat): string
    requires n <= |w|
  {
    if Measure(w, |w| - n) > least then w[..|w| - n] + repl else w
  }

  /** The first rule whose suffix the word has. */
  function ApplyFirst(rules: seq<Rule>, w: string): string {
    if rules == [] then w
    else if Fits(w, rules[0]) then Replaced(w, |rules[0].suffix|, rules[0].repl, rules[0].least)
    else ApplyFirst(rules[1..], w)
  }

  /** Rules whose suffixes share a letter, `back` from the end. */
  datatype Group = Group(letter: char, rules: seq<Rule>)

  predicate Keyed(g: Group, back: nat) {
    forall i :: 0 <= i < |g.rules| ==>
      0 < back <= |g.rules[i].suffix| && g.rules[i].suffix[|g.rules[i].suffix| - back] == g.letter
  }

  predicate Grouped(groups: seq<Group>, back: nat) {
    && (forall i :: 0 <= i < |groups| ==> Keyed(groups[i], back))
    && (forall i, j :: 0 <= i < j < |groups| ==> groups[i].letter != groups[j].letter)
  }

  function Table(groups: seq<Group>): seq<Rule> {
    if groups == [] then [] else groups[0].rules + Table(groups[1..])
  }

  /** The branch taken for a letter. */
  function Branch(groups: seq<Group>, c: char): seq<Rule> {
    if groups == [] then [] else if groups[0].letter == c then groups[0].rules else Branch(groups[1..], c)
  }

  predicate NoneMatch(rules: seq<Rule>, w: string) {
    forall i :: 0 <= i < |rules| ==> !Fits(w, rules[i])
  }

  lemma {:induction false} ApplyNone(rules: seq<Rule>, w: string)
    requires NoneMatch(rules, w)
    ensures ApplyFirst(rules, w) == w
  {
    if rules != [] { ApplyNone(rules[1..], w); }
  }

  lemma {:induction false} ApplySkips(a: seq<Rule>, b: seq<Rule>, w: string)
    ensures NoneMatch(a, w) ==> ApplyFirst(a + b, w) == ApplyFirst(b, w)
    ensures NoneMatch(b, w) ==> ApplyFirst(a + b, w) == ApplyFirst(a, w)
  {
    if a == [] {
      assert a + b == b;
      if NoneMatch(b, w) { ApplyNone(b, w); }
    } else {
      assert (a + b)[1..] == a[1..] + b;
      ApplySkips(a[1..], b, w);
    }
  }

  lemma EndsDisagree(w: string, s: string, back: nat)
    requires 0 < back <= |s| && (|w| < back || w[|w| - back] != s[|s| - back])
    ensures !EndsWith(w, s)
  {
    if |s| <= |w| {
      assert w[|w| - |s|..][|s| - back] == w[|w| - back];
    }
  }

  predicate NoneBefore(rules: seq<Rule>, n: nat, w: string)
    requires n <= |rules|
  {
    forall i :: 0 <= i < n ==> !Fits(w, rules[i])
  }

  lemma NoneFits(rules: seq<Rule>, w: string)
    requires NoneBefore(rules, |rules|, w)
    ensures ApplyFirst(rules, w) == w
  {
    ApplyNone(rules, w);
  }

  lemma {:induction false} FirstFits(rules: seq<Rule>, w: string, i: nat)
    requires i < |rules| && Fits(w, rules[i]) && NoneBefore(rules, i, w)
    ensures ApplyFirst(rules, w) == Replaced(w, |rules[i].suffix|, rules[i].repl, rules[i].least)
  {
    if i > 0 {
      assert !Fits(w, rules[0]);
      assert forall q :: 0 <= q < i - 1 ==> rules[1..][q] == rules[q + 1];
      FirstFits(rules[1..], w, i - 1);
    }
  }

  /** A word matches only suffixes that agree with it on the letter `back` from the end. */
  lemma KeyedMatch(g: Group, back: nat, w: string)
    requires back > 0 && Keyed(g, back) && (|w| < back || w[|w| - back] != g.letter)
    ensures NoneMatch(g.rules, w)
  {
    forall i | 0 <= i < |g.rules| ensures !Fits(w, g.rules[i]) {
      EndsDisagree(w, g.rules[i].suffix, back);
    }
  }

  lemma {:induction false} TableMatch(groups: seq<Group>, back: nat, w: string)
    requires back > 0 && Grouped(groups, back) && forall i :: 0 <= i < |groups| ==>
             |w| < back || w[|w| - back] != groups[i].letter
    ensures NoneMatch(Table(groups), w)
  {
    if groups != [] {
      KeyedMatch(groups[0], back, w);
      TableMatch(groups[1..], back, w);
    }
  }

  /**
    Dispatching on a letter finds the first rule of the whole table.  For a word too short to have
    that letter any letter will do, so what a read outside the word returns does not matter.
   */
  lemma {:induction false} Dispatch(groups: seq<Group>, back: nat, w: string, c: char)
    requires back > 0 && Grouped(groups, back) && (|w| >= back ==> c == w[|w| - back])
    ensures ApplyFirst(Branch(groups, c), w) == ApplyFirst(Table(groups), w)
  {
    if groups != [] {
      ApplySkips(groups[0].rules, Table(groups[1..]), w);
      if groups[0].letter == c && |w| >= back {
        TableMatch(groups[1..], back, w);
      } else {
        KeyedMatch(groups[0], back, w);
        if groups[0].letter == c {
          ApplyNone(groups[0].rules, w);
          TableMatch(groups[1..], back, w);
          ApplyNone(Table(groups[1..]), w);
        } else {
          Dispatch(groups[1..], back, w, c);
        }
      }
    }
  }

  // ----- The steps on words -----

  /** Plurals. */
  function Step1a(w: string): string
    requires |w| >= 2
  {
    if w[|w| - 1] != 's' then w
    else if EndsWith(w, "sses") then w[..|w| - 2]
    else if EndsWith(w, "ies") then w[..|w| - 3] + "i"
    else if w[|w| - 2] != 's' then w[..|w| - 1]
    else w
  }

  /** What is left after -ed or -ing is repaired. */
  function Repaired(w: string): string
    requires |w| > 0
  {
    if EndsWith(w, "at") || EndsWith(w, "bl") || EndsWith(w, "iz") then w + "e" else Trimmed(w)
  }

  function Trimmed(w: string): string
    requires |w| > 0
  {
    if DoubleC(w, |w|) then if w[|w| - 1] == 'l' || w[|w| - 1] == 's' || w[|w| - 1] == 'z' then w else w[..|w| - 1]
    else if Measure(w, |w|) == 1 && Cvc(w, |w|) then w + "e"
    else w
  }

  function Step1b(w: string): string {
    if EndsWith(w, "eed") then if Measure(w, |w| - 3) > 0 then w[..|w| - 1] else w
    else if EndsWith(w, "ed") then if HasVowel(w, |w| - 2) then Repaired(w[..|w| - 2]) else w
    else if EndsWith(w, "ing") then if HasVowel(w, |w| - 3) then Repaired(w[..|w| - 3]) else w
    else w
  }

  function Step1c(w: string): string {
    if EndsWith(w, "y") && HasVowel(w, |w| - 1) then w[..|w| - 1] + "i" else w
  }

  const A2 := [Rule("ational", "ate"), Rule("tional", "tion")]
  const C2 := [Rule("enci", "ence"), Rule("anci", "ance")]
  const E2 := [Rule("izer", "ize")]
  const L2 := [Rule("bli", "ble"), Rule("alli", "al"), Rule("entli", "ent"), Rule("eli", "e"), Rule("ousli", "ous")]
  const O2 := [Rule("ization", "ize"), Rule("ation", "ate"), Rule("ator", "ate")]
  const S2 := [Rule("alism", "al"), Rule("iveness", "ive"), Rule("fulness", "ful"), Rule("ousness", "ous")]
  const T2 := [Rule("aliti", "al"), Rule("iviti", "ive"), Rule("biliti", "ble")]
  const G2 := [Rule("logi", "log")]

  const STEP2 := [Group('a', A2), Group('c', C2), Group('e', E2), Group('l', L2), Group('o', O2), Group('s', S2),
      Group('t', T2), Group('g', G2)]

  const E3 := [Rule("icate", "ic"), Rule("ative", ""), Rule("alize", "al")]
  const I3 := [Rule("iciti", "ic")]
  const L3 := [Rule("ical", "ic"), Rule("ful", "")]
  const S3 := [Rule("ness", "")]

  const STEP3 := [Group('e', E3), Group('i', I3), Group('l', L3), Group('s', S3)]

  /** Double suffixes become single ones: the first rule of the table that fits. */
  function Step2(w: string): string {
    ApplyFirst(Table(STEP2), w)
  }

  function Step3(w: string): string {
    ApplyFirst(Table(STEP3), w)
  }

  const A4 := [Rule("al", "", 1)]
  const C4 := [Rule("ance", "", 1), Rule("ence", "", 1)]
  const E4 := [Rule("er", "", 1)]
  const I4 := [Rule("ic", "", 1)]
  const L4 := [Rule("able", "", 1), Rule("ible", "", 1)]
  const N4 := [Rule("ant", "", 1), Rule("ement", "", 1), Rule("ment", "", 1), Rule("ent", "", 1)]
  const O4 := [Rule("ion", "", 1, true), Rule("ou", "", 1)]
  const S4 := [Rule("ism", "", 1)]
  const T4 := [Rule("ate", "", 1), Rule("iti", "", 1)]
  const U4 := [Rule("ous", "", 1)]
  const V4 := [Rule("ive", "", 1)]
  const Z4 := [Rule("ize", "", 1)]

  const STEP4 := [Group('a', A4), Group('c', C4), Group('e', E4), Group('i', I4), Group('l', L4), Group('n', N4),
                  Group('o', O4), Group('s', S4), Group('t', T4), Group('u', U4), Group('v', V4), Group('z', Z4)]

  /** Suffixes such as -ant and -ence come off behind two boundaries. */
  function Step4(w: string): string {
    ApplyFirst(Table(STEP4), w)
  }

  function DropE(w: string, a: nat): string
    requires |w| > 0
  {
    if w[|w| - 1] == 'e' && (a > 1 || (a == 1 && !Cvc(w, |w| - 1))) then w[..|w| - 1] else w
  }

  /** A final -e, and one of a final -ll, judged by the boundaries of the whole word. */
  function Step5(w: string): string
    requires |w| > 0
  {
    var a := Measure(w, |w|);
    var v := DropE(w, a);
    if |v| > 0 && v[|v| - 1] == 'l' && DoubleC(v, |v|) && a > 1 then v[..|v| - 1] else v
  }

  lemma Step2Grouped()
    ensures Grouped(STEP2, 2)
  {
    assert Keyed(STEP2[0], 2) && Keyed(STEP2[1], 2) && Keyed(STEP2[2], 2) && Keyed(STEP2[3], 2);
    assert Keyed(STEP2[4], 2) && Keyed(STEP2[5], 2) && Keyed(STEP2[6], 2) && Keyed(STEP2[7], 2);
  }

  lemma Step3Grouped()
    ensures Grouped(STEP3, 1)
  {
    assert Keyed(STEP3[0], 1) && Keyed(STEP3[1], 1) && Keyed(STEP3[2], 1) && Keyed(STEP3[3], 1);
  }

  lemma Step4Keyed()
    ensures forall i :: 0 <= i < 6 ==> Keyed(STEP4[i], 2)
  {
    assert Keyed(STEP4[0], 2) && Keyed(STEP4[1], 2) && Keyed(STEP4[2], 2);
    assert Keyed(STEP4[3], 2) && Keyed(STEP4[4], 2) && Keyed(STEP4[5], 2);
  }

  lemma Step4Grouped()
    ensures Grouped(STEP4, 2)
  {
    Step4Keyed();
    assert Keyed(STEP4[6], 2) && Keyed(STEP4[7], 2) && Keyed(STEP4[8], 2);
    assert Keyed(STEP4[9], 2) && Keyed(STEP4[10], 2) && Keyed(STEP4[11], 2);
    hide Keyed;
  }

  // ----- A stem is a word, and no longer -----

  lemma {:induction false} MeasureNeeds(w: string, n: nat)
    requires n <= |w| && Measure(w, n) > 0
    ensures n >= 2
  {
  }

  lemma DoubleNeeds(w: string, n: nat)
    requires n <= |w| && DoubleC(w, n)
    ensures n >= 2 && w[n - 1] == w[n - 2]
  {
  }

  lemma VowelNeeds(w: string, n: nat)
    requires n <= |w| && HasVowel(w, n)
    ensures n >= 1
  {
  }

  predicate Shortens(rules: seq<Rule>) {
    forall i :: 0 <= i < |rules| ==> |rules[i].repl| <= |rules[i].suffix|
  }

  lemma {:induction false} ApplyShortens(rules: seq<Rule>, w: string)
    requires Shortens(rules) && |w| > 0
    ensures 0 < |ApplyFirst(rules, w)| <= |w|
  {
    if rules != [] && !Fits(w, rules[0]) { ApplyShortens(rules[1..], w); }
  }

  lemma {:induction false} TableShortens(groups: seq<Group>)
    requires forall i :: 0 <= i < |groups| ==> Shortens(groups[i].rules)
    ensures Shortens(Table(groups))
  {
    if groups != [] { TableShortens(groups[1..]); }
  }

  lemma RepairedSize(w: string)
    requires |w| > 0
    ensures 0 < |Repaired(w)| <= |w| + 1
  {
    if DoubleC(w, |w|) { DoubleNeeds(w, |w|); }
    hide EndsWith, Measure, DoubleC, Cvc;
  }

  lemma Step1bSize(w: string)
    requires |w| > 0
    ensures 0 < |Step1b(w)| <= |w|
  {
    hide Repaired, Measure, HasVowel;
    if EndsWith(w, "eed") {
      if Measure(w, |w| - 3) > 0 { MeasureNeeds(w, |w| - 3); }
    } else if EndsWith(w, "ed") {
      if HasVowel(w, |w| - 2) { VowelNeeds(w, |w| - 2); RepairedSize(w[..|w| - 2]); }
    } else if EndsWith(w, "ing") {
      if HasVowel(w, |w| - 3) { VowelNeeds(w, |w| - 3); RepairedSize(w[..|w| - 3]); }
    }
  }

  /** Each step leaves at least one letter and adds none in all. */
  lemma Step1Size(w: string)
    requires |w| >= 3
    ensures 0 < |Step1a(w)| <= |w|
    ensures 0 < |Step1b(Step1a(w))| <= |Step1a(w)|
    ensures 0 < |Step1c(Step1b(Step1a(w)))| <= |Step1b(Step1a(w))|
  {
    var v := Step1a(w);
    assert 0 < |v| <= |w|;
    hide Step1a, Step1b, EndsWith, HasVowel;
    Step1bSize(v);
  }

  lemma Tables()
    ensures Shortens(Table(STEP2)) && Shortens(Table(STEP3)) && Shortens(Table(STEP4))
  {
    TableShortens(STEP2);
    TableShortens(STEP3);
    TableShortens(STEP4);
  }

  /** The stem: words of one or two letters are left alone. */
  function Stem(w: string): (r: string)
    ensures |w| > 0 ==> 0 < |r| <= |w|
  {
    if |w| <= 2 then w
    else
      Step1Size(w);
      Tables();
      var w1 := Step1c(Step1b(Step1a(w)));
      ApplyShortens(Table(STEP2), w1);
      ApplyShortens(Table(STEP3), Step2(w1));
      ApplyShortens(Table(STEP4), Step3(Step2(w1)));
      Step5(Step4(Step3(Step2(w1))))
  }

  lemma {:induction false} BranchOf(groups: seq<Group>, i: nat)
    requires i < |groups| && forall a, b :: 0 <= a < b < |groups| ==> groups[a].letter != groups[b].letter
    ensures Branch(groups, groups[i].letter) == groups[i].rules
  {
    if i > 0 { BranchOf(groups[1..], i - 1); }
  }

  lemma {:induction false} BranchNone(groups: seq<Group>, c: char)
    requires forall a :: 0 <= a < |groups| ==> groups[a].letter != c
    ensures Branch(groups, c) == []
  {
    if groups != [] { BranchNone(groups[1..], c); }
  }

  lemma FitsIon(w: string)
    ensures Fits(w, O4[0]) <==> EndsWith(w, "ion") && |w| > 3 && (w[|w| - 4] == 's' || w[|w| - 4] == 't')
  {
    hide EndsWith;
  }

  lemma IonNotOu(w: string)
    requires EndsWith(w, "ion")
    ensures !Fits(w, O4[1])
  {
    assert w[|w| - 3..][2] == 'n';
    EndsDisagree(w, "ou", 1);
  }

  lemma NothingAdded(w: string, n: nat)
    requires n <= |w|
    ensures Replaced(w, n, "", 1) == if Measure(w, |w| - n) > 1 then w[..|w| - n] else w
  {
    assert w[..|w| - n] + "" == w[..|w| - n];
  }

  /** -ion comes off only after s or t ... */
  lemma IonOther(w: string)
    requires !(EndsWith(w, "ion") && |w| > 3 && (w[|w| - 4] == 's' || w[|w| - 4] == 't'))
    ensures NoneBefore(O4, 1, w)
  {
    FitsIon(w);
    hide Fits, EndsWith;
  }

  lemma IonTaken(w: string)
    requires EndsWith(w, "ion") && |w| > 3 && (w[|w| - 4] == 's' || w[|w| - 4] == 't')
    ensures ApplyFirst(O4, w) == if Measure(w, |w| - 3) > 1 then w[..|w| - 3] else w
  {
    FitsIon(w);
    hide Fits, EndsWith, Replaced, Measure, ApplyFirst;
    FirstFits(O4, w, 0);
    NothingAdded(w, 3);
  }

  /** ... and a word that is nothing but -ion stays. */
  lemma IonAlone(w: string)
    requires EndsWith(w, "ion") && |w| == 3
    ensures ApplyFirst(O4, w) == w
  {
    FitsIon(w);
    IonNotOu(w);
    hide Fits, EndsWith, Replaced, Measure, ApplyFirst;
    NoneFits(O4, w);
  }

  lemma Branches4(c: char)
    ensures Branch(STEP4, c) ==
            if c == 'a' then A4 else if c == 'c' then C4 else if c == 'e' then E4 else if c == 'i' then I4
            else if c == 'l' then L4 else if c == 'n' then N4 else if c == 'o' then O4 else if c == 's' then S4
            else if c == 't' then T4 else if c == 'u' then U4 else if c == 'v' then V4 else if c == 'z' then Z4 else []
  {
    if i :| 0 <= i < |STEP4| && STEP4[i].letter == c {
      Step4Grouped();
      BranchOf(STEP4, i);
    } else {
      BranchNone(STEP4, c);
      assert STEP4[0].letter != c && STEP4[1].letter != c && STEP4[2].letter != c && STEP4[3].letter != c;
      assert STEP4[4].letter != c && STEP4[5].letter != c && STEP4[6].letter != c && STEP4[7].letter != c;
      assert STEP4[8].letter != c && STEP4[9].letter != c && STEP4[10].letter != c && STEP4[11].letter != c;
    }
  }

  lemma LastReplaced(b: string, start: nat, last: nat)
    requires start <= last < |b|
    ensures (b[..last] + "i" + b[last + 1..])[start..last + 1] == b[start..last] + "i"
  {
    var l, r := (b[..last] + "i" + b[last + 1..])[start..last + 1], b[start..last] + "i";
    assert |l| == |r| && forall i :: 0 <= i < |l| ==> l[i] == r[i];
  }

  // ----- The buffer and its indices -----

  class PorterStemmer {
    var b: string
    var k: int
    var k0: int
    var j: int

    /** The word is `b[k0..k + 1]`; what follows it in the buffer is left over. */
    predicate Valid()
      reads this
    {
      0 <= k0 <= k < |b|
    }

    function Tail(): string
      requires Valid()
      reads this
    {
      b[k0..]
    }

    function Word(): (w: string)
      requires Valid()
      reads this
      ensures |w| == k - k0 + 1
    {
      b[k0..k + 1]
    }

    /** `b[i]` as Python reads it: index -1 is the last letter of the buffer. */
    function At(i: int): char
      requires -|b| <= i < |b|
      reads this
    {
      if i < 0 then b[|b| + i] else b[i]
    }

    constructor ()
      ensures b == "" && k == 0 && k0 == 0 && j == 0
    {
      b, k, k0, j := "", 0, 0, 0;
    }

    predicate cons(i: int)
      requires Valid() && k0 <= i < |b|
      reads this
      ensures cons(i) == Cons(Tail(), i - k0)
      decreases i
    {
      if b[i] == 'a' || b[i] == 'e' || b[i] == 'i' || b[i] == 'o' || b[i] == 'u' then false
      else if b[i] == 'y' then (if i == k0 then true else !cons(i - 1))
      else true
    }

    /** Counts the boundaries up to `j` in one pass. */
    method m() returns (n: nat)
      requires Valid() && k0 - 1 <= j < |b|
      ensures n == Measure(Tail(), j - k0 + 1)
    {
      n := 0;
      var i := k0;
      ghost var w := Tail();
      while true
        invariant k0 <= i <= j + 1 && n == 0 && Measure(w, i - k0) == 0
        invariant forall t :: 0 <= t < i - k0 ==> Cons(w, t)
        decreases j - i
      {
        if i > j { return; }
        if !cons(i) { break; }
        i := i + 1;
      }
      i := i + 1;
      while true
        invariant k0 < i <= j + 1 && n == Measure(w, i - k0) && !Cons(w, i - k0 - 1)
        decreases j - i
      {
        while true
          invariant k0 < i <= j + 1 && n == Measure(w, i - k0) && !Cons(w, i - k0 - 1)
          decreases j - i
        {
          if i > j { return; }
          if cons(i) { break; }
          i := i + 1;
        }
        ghost var at := i;
        i := i + 1;
        n := n + 1;
        while true
          invariant at < i <= j + 1 && n == Measure(w, i - k0) && Cons(w, i - k0 - 1)
          decreases j - i
        {
          if i > j { return; }
          if !cons(i) { break; }
          i := i + 1;
        }
        i := i + 1;
      }
    }

    method vowelinstem() returns (found: bool)
      requires Valid() && k0 - 1 <= j < |b|
      ensures found == HasVowel(Tail(), j - k0 + 1)
    {
      for i := k0 to j + 1
        invariant forall t :: 0 <= t < i - k0 ==> Cons(Tail(), t)
      {
        if !cons(i) {
          return true;
        }
      }
      return false;
    }

    predicate doublec(at: int)
      requires Valid() && k0 <= at < |b|
      reads this
      ensures doublec(at) == DoubleC(Tail(), at - k0 + 1)
    {
      if at < k0 + 1 then false else if b[at] != b[at - 1] then false else cons(at)
    }

    predicate cvc(i: int)
      requires Valid() && k0 - 1 <= i < |b|
      reads this
      ensures cvc(i) == Cvc(Tail(), i - k0 + 1)
    {
      if i < k0 + 2 || !cons(i) || cons(i - 1) || !cons(i - 2) then false
      else b[i] != 'w' && b[i] != 'x' && b[i] != 'y'
    }

    /** Sets `j` just before the suffix when the word has it. */
    method ends(s: string) returns (hit: bool)
      requires Valid() && |s| > 0
      modifies `j
      ensures hit == EndsWith(Word(), s) && j == if hit then k - |s| else old(j)
      ensures hit ==> k0 - 1 <= j < k
    {
      var length := |s|;
      ghost var w := Word();
      if s[length - 1] != b[k] {
        assert |s| <= |w| ==> w[|w| - |s|..][length - 1] == b[k];
        return false;
      }
      if length > k - k0 + 1 {
        return false;
      }
      assert w[|w| - |s|..] == b[k - length + 1..k + 1];
      if b[k - length + 1..k + 1] != s {
        return false;
      }
      j := k - length;
      return true;
    }

    /** Puts `s` behind the stem that ends at `j`. */
    method setto(s: string)
      requires Valid() && k0 - 1 <= j <= k && (s == "" ==> j >= k0)
      modifies `b, `k
      ensures Valid() && Word() == old(Word())[..j - k0 + 1] + s
    {
      var length := |s|;
      b := b[..j + 1] + s + (if j + length + 1 <= |b| then b[j + length + 1..] else "");
      k := j + length;
    }

    /** Still a word, starting where it did. */
    predicate Kept(start: int)
      reads this
    {
      Valid() && k0 == start
    }

    /** Boundaries are counted in the buffer; inside the word it makes no difference. */
    lemma WordMeasure(n: nat)
      requires Valid() && n <= |Word()|
      ensures Measure(Tail(), n) == Measure(Word(), n) && HasVowel(Tail(), n) == HasVowel(Word(), n)
    {
      assert Tail()[..n] == Word()[..n];
      MeasurePrefix(Tail(), Word(), n, n);
      VowelPrefix(Tail(), Word(), n);
    }

    method r(s: string)
      requires Valid() && k0 - 1 <= j < k
      modifies `b, `k
      ensures Valid() && Word() == Replaced(old(Word()), old(k) - j, s, 0)
    {
      WordMeasure(j - k0 + 1);
      var n := m();
      if n > 0 {
        MeasureNeeds(Tail(), j - k0 + 1);
        setto(s);
      }
    }

    /** `if self.ends(suffix): self.r(repl)`, as rule `i` of a branch none of whose earlier rules fits. */
    method rule(suffix: string, repl: string, ghost rules: seq<Rule>, ghost i: nat) returns (hit: bool)
      requires Valid() && |suffix| > 0 && i < |rules| && rules[i] == Rule(suffix, repl) &&
               (i == 0 || NoneBefore(rules, i, Word()))
      modifies this
      ensures Kept(old(k0))
      ensures if hit then Word() == ApplyFirst(rules, old(Word()))
              else Word() == old(Word()) && NoneBefore(rules, i + 1, Word())
    {
      ghost var w := Word();
      hit := ends(suffix);
      if hit {
        r(repl);
        FirstFits(rules, w, i);
      }
    }

    method step2a()
      requires Valid()
      modifies this
      ensures Kept(old(k0)) && Word() == ApplyFirst(A2, old(Word()))
    {
      hide ApplyFirst, NoneBefore;
      var hit := rule("ational", "ate", A2, 0);
      if !hit { hit := rule("tional", "tion", A2, 1); }
      if !hit { NoneFits(A2, Word()); }
    }

    method step2c()
      requires Valid()
      modifies this
      ensures Kept(old(k0)) && Word() == ApplyFirst(C2, old(Word()))
    {
      hide ApplyFirst, NoneBefore;
      var hit := rule("enci", "ence", C2, 0);
      if !hit { hit := rule("anci", "ance", C2, 1); }
      if !hit { NoneFits(C2, Word()); }
    }

    method step2e()
      requires Valid()
      modifies this
      ensures Kept(old(k0)) && Word() == ApplyFirst(E2, old(Word()))
    {
      hide ApplyFirst, NoneBefore;
      var hit := rule("izer", "ize", E2, 0);
      if !hit { NoneFits(E2, Word()); }
    }

    method step2l()
      requires Valid()
      modifies this
      ensures Kept(old(k0)) && Word() == ApplyFirst(L2, old(Word()))
    {
      hide ApplyFirst, NoneBefore;
      var hit := rule("bli", "ble", L2, 0);
      if !hit { hit := rule("alli", "al", L2, 1); }
      if !hit { hit := rule("entli", "ent", L2, 2); }
      if !hit { hit := rule("eli", "e", L2, 3); }
      if !hit { hit := rule("ousli", "ous", L2, 4); }
      if !hit { NoneFits(L2, Word()); }
    }

    method step2o()
      requires Valid()
      modifies this
      ensures Kept(old(k0)) && Word() == ApplyFirst(O2, old(Word()))
    {
      hide ApplyFirst, NoneBefore;
      var hit := rule("ization", "ize", O2, 0);
      if !hit { hit := rule("ation", "ate", O2, 1); }
      if !hit { hit := rule("ator", "ate", O2, 2); }
      if !hit { NoneFits(O2, Word()); }
    }

    method step2s()
      requires Valid()
      modifies this
      ensures Kept(old(k0)) && Word() == ApplyFirst(S2, old(Word()))
    {
      hide ApplyFirst, NoneBefore;
      var hit := rule("alism", "al", S2, 0);
      if !hit { hit := rule("iveness", "ive", S2, 1); }
      if !hit { hit := rule("fulness", "ful", S2, 2); }
      if !hit { hit := rule("ousness", "ous", S2, 3); }
      if !hit { NoneFits(S2, Word()); }
    }

    method step2t()
      requires Valid()
      modifies this
      ensures Kept(old(k0)) && Word() == ApplyFirst(T2, old(Word()))
    {
      hide ApplyFirst, NoneBefore;
      var hit := rule("aliti", "al", T2, 0);
      if !hit { hit := rule("iviti", "ive", T2, 1); }
      if !hit { hit := rule("biliti", "ble", T2, 2); }
      if !hit { NoneFits(T2, Word()); }
    }

    method step2g()
      requires Valid()
      modifies this
      ensures Kept(old(k0)) && Word() == ApplyFirst(G2, old(Word()))
    {
      hide ApplyFirst, NoneBefore;
      var hit := rule("logi", "log", G2, 0);
      if !hit { NoneFits(G2, Word()); }
    }

    /** Dispatch on the letter before the last, which for a one-letter word is whatever `b[k - 1]` reads. */
    method step2()
      requires Valid()
      modifies this
      ensures Kept(old(k0)) && Word() == Step2(old(Word()))
    {
      var c := At(k - 1);
      Step2Grouped();
      Dispatch(STEP2, 2, Word(), c);
      hide ApplyFirst, Branch, Table;
      if c == 'a' {
        BranchOf(STEP2, 0);
        step2a();
      } else if c == 'c' {
        BranchOf(STEP2, 1);
        step2c();
      } else if c == 'e' {
        BranchOf(STEP2, 2);
        step2e();
      } else if c == 'l' {
        BranchOf(STEP2, 3);
        step2l();
      } else if c == 'o' {
        BranchOf(STEP2, 4);
        step2o();
      } else if c == 's' {
        BranchOf(STEP2, 5);
        step2s();
      } else if c == 't' {
        BranchOf(STEP2, 6);
        step2t();
      } else if c == 'g' {
        BranchOf(STEP2, 7);
        step2g();
      } else {
        BranchNone(STEP2, c);
      }
    }

    method step3e()
      requires Valid()
      modifies this
      ensures Kept(old(k0)) && Word() == ApplyFirst(E3, old(Word()))
    {
      hide ApplyFirst, NoneBefore;
      var hit := rule("icate", "ic", E3, 0);
      if !hit { hit := rule("ative", "", E3, 1); }
      if !hit { hit := rule("alize", "al", E3, 2); }
      if !hit { NoneFits(E3, Word()); }
    }

    method step3i()
      requires Valid()
      modifies this
      ensures Kept(old(k0)) && Word() == ApplyFirst(I3, old(Word()))
    {
      hide ApplyFirst, NoneBefore;
      var hit := rule("iciti", "ic", I3, 0);
      if !hit { NoneFits(I3, Word()); }
    }

    method step3l()
      requires Valid()
      modifies this
      ensures Kept(old(k0)) && Word() == ApplyFirst(L3, old(Word()))
    {
      hide ApplyFirst, NoneBefore;
      var hit := rule("ical", "ic", L3, 0);
      if !hit { hit := rule("ful", "", L3, 1); }
      if !hit { NoneFits(L3, Word()); }
    }

    method step3s()
      requires Valid()
      modifies this
      ensures Kept(old(k0)) && Word() == ApplyFirst(S3, old(Word()))
    {
      hide ApplyFirst, NoneBefore;
      var hit := rule("ness", "", S3, 0);
      if !hit { NoneFits(S3, Word()); }
    }

    method step3()
      requires Valid()
      modifies this
      ensures Kept(old(k0)) && Word() == Step3(old(Word()))
    {
      var c := b[k];
      Step3Grouped();
      Dispatch(STEP3, 1, Word(), c);
      hide ApplyFirst, Branch, Table;
      if c == 'e' {
        BranchOf(STEP3, 0);
        step3e();
      } else if c == 'i' {
        BranchOf(STEP3, 1);
        step3i();
      } else if c == 'l' {
        BranchOf(STEP3, 2);
        step3l();
      } else if c == 's' {
        BranchOf(STEP3, 3);
        step3s();
      } else {
        BranchNone(STEP3, c);
      }
    }

    /** What the end of `step4` makes of the branch: the stem up to `j`, if it has two boundaries. */
    predicate Takes(rules: seq<Rule>)
      requires Valid()
      reads this
    {
      && k0 - 1 <= j < k
      && ApplyFirst(rules, Word()) == if Measure(Tail(), j - k0 + 1) > 1 then Word()[..j - k0 + 1] else Word()
    }

    predicate Decides(hit: bool, rules: seq<Rule>)
      requires Valid()
      reads this
    {
      if hit then Takes(rules) else ApplyFirst(rules, Word()) == Word()
    }

    method suffix(s: string, ghost rules: seq<Rule>, ghost i: nat) returns (hit: bool)
      requires Valid() && |s| > 0 && i < |rules| && rules[i] == Rule(s, "", 1) &&
               (i == 0 || NoneBefore(rules, i, Word()))
      modifies `j
      ensures if hit then Takes(rules) else NoneBefore(rules, i + 1, Word())
    {
      FitsEnds(Word(), s, rules, i);
      hide ApplyFirst, EndsWith, Measure, HasVowel, Fits, NoneBefore, Takes;
      hit := ends(s);
      if hit {
        FirstTaken(Word(), s, rules, i);
        TakesWhen(rules, j - k0 + 1);
      }
    }

    lemma FirstTaken(w: string, s: string, rules: seq<Rule>, i: nat)
      requires i < |rules| && rules[i] == Rule(s, "", 1) && Fits(w, rules[i]) && NoneBefore(rules, i, w)
      ensures |s| <= |w| && ApplyFirst(rules, w) == if Measure(w, |w| - |s|) > 1 then w[..|w| - |s|] else w
    {
      FirstFits(rules, w, i);
      NothingAdded(w, |s|);
    }

    lemma TakesWhen(rules: seq<Rule>, n: nat)
      requires Valid() && k0 - 1 <= j < k && n == j - k0 + 1
      requires ApplyFirst(rules, Word()) == if Measure(Word(), n) > 1 then Word()[..n] else Word()
      ensures Takes(rules)
    {
      WordMeasure(n);
    }

    lemma FitsEnds(w: string, s: string, rules: seq<Rule>, i: nat)
      requires i < |rules| && rules[i] == Rule(s, "", 1) && (i == 0 || NoneBefore(rules, i, w))
      ensures Fits(w, rules[i]) == EndsWith(w, s) && NoneBefore(rules, i, w)
      ensures !EndsWith(w, s) ==> NoneBefore(rules, i + 1, w)
    {
      hide EndsWith;
    }

    method step4a() returns (hit: bool)
      requires Valid()
      modifies `j
      ensures Decides(hit, A4)
    {
      hide ApplyFirst, NoneBefore;
      hit := suffix("al", A4, 0);
      if !hit { NoneFits(A4, Word()); }
    }

    method step4c() returns (hit: bool)
      requires Valid()
      modifies `j
      ensures Decides(hit, C4)
    {
      hide ApplyFirst, NoneBefore;
      hit := suffix("ance", C4, 0);
      if !hit { hit := suffix("ence", C4, 1); }
      if !hit { NoneFits(C4, Word()); }
    }

    method step4e() returns (hit: bool)
      requires Valid()
      modifies `j
      ensures Decides(hit, E4)
    {
      hide ApplyFirst, NoneBefore;
      hit := suffix("er", E4, 0);
      if !hit { NoneFits(E4, Word()); }
    }

    method step4i() returns (hit: bool)
      requires Valid()
      modifies `j
      ensures Decides(hit, I4)
    {
      hide ApplyFirst, NoneBefore;
      hit := suffix("ic", I4, 0);
      if !hit { NoneFits(I4, Word()); }
    }

    method step4l() returns (hit: bool)
      requires Valid()
      modifies `j
      ensures Decides(hit, L4)
    {
      hide ApplyFirst, NoneBefore;
      hit := suffix("able", L4, 0);
      if !hit { hit := suffix("ible", L4, 1); }
      if !hit { NoneFits(L4, Word()); }
    }

    method step4n() returns (hit: bool)
      requires Valid()
      modifies `j
      ensures Decides(hit, N4)
    {
      hide ApplyFirst, NoneBefore;
      hit := suffix("ant", N4, 0);
      if !hit { hit := suffix("ement", N4, 1); }
      if !hit { hit := suffix("ment", N4, 2); }
      if !hit { hit := suffix("ent", N4, 3); }
      if !hit { NoneFits(N4, Word()); }
    }

    predicate AfterST(w: string) {
      |w| > 3 && (w[|w| - 4] == 's' || w[|w| - 4] == 't')
    }

    /**
      `self.ends("ion") and (self.b[self.j] == "s" or self.b[self.j] == "t")`.  With no letter left
      before the suffix this reads outside the word.
     */
    method endsIon() returns (hit: bool)
      requires Valid()
      modifies `j
      ensures hit ==> EndsWith(Word(), "ion") && j == k - 3 && k0 - 1 <= j && (AfterST(Word()) || j == k0 - 1)
      ensures !hit ==> !(EndsWith(Word(), "ion") && AfterST(Word()))
    {
      hide EndsWith;
      hit := ends("ion");
      if hit {
        hit := At(j) == 's' || At(j) == 't';
      }
    }

    method step4o() returns (hit: bool)
      requires Valid()
      modifies `j
      ensures Decides(hit, O4)
    {
      hide ApplyFirst, NoneBefore, EndsWith, Measure, HasVowel;
      hit := endsIon();
      if hit {
        IonDecides();
      } else {
        IonOther(Word());
        hit := suffix("ou", O4, 1);
        if !hit { NoneFits(O4, Word()); }
      }
    }

    lemma IonDecides()
      requires Valid() && EndsWith(Word(), "ion") && j == k - 3 && k0 - 1 <= j && (AfterST(Word()) || j == k0 - 1)
      ensures Takes(O4)
    {
      WordMeasure(j - k0 + 1);
      MeasureNone(Tail());
      hide EndsWith, ApplyFirst, Measure;
      if j == k0 - 1 {
        IonAlone(Word());
      } else {
        IonTaken(Word());
      }
    }

    lemma MeasureNone(w: string)
      ensures Measure(w, 0) == 0
    {
    }

    method step4s() returns (hit: bool)
      requires Valid()
      modifies `j
      ensures Decides(hit, S4)
    {
      hide ApplyFirst, NoneBefore;
      hit := suffix("ism", S4, 0);
      if !hit { NoneFits(S4, Word()); }
    }

    method step4t() returns (hit: bool)
      requires Valid()
      modifies `j
      ensures Decides(hit, T4)
    {
      hide ApplyFirst, NoneBefore;
      hit := suffix("ate", T4, 0);
      if !hit { hit := suffix("iti", T4, 1); }
      if !hit { NoneFits(T4, Word()); }
    }

    method step4u() returns (hit: bool)
      requires Valid()
      modifies `j
      ensures Decides(hit, U4)
    {
      hide ApplyFirst, NoneBefore;
      hit := suffix("ous", U4, 0);
      if !hit { NoneFits(U4, Word()); }
    }

    method step4v() returns (hit: bool)
      requires Valid()
      modifies `j
      ensures Decides(hit, V4)
    {
      hide ApplyFirst, NoneBefore;
      hit := suffix("ive", V4, 0);
      if !hit { NoneFits(V4, Word()); }
    }

    method step4z() returns (hit: bool)
      requires Valid()
      modifies `j
      ensures Decides(hit, Z4)
    {
      hide ApplyFirst, NoneBefore;
      hit := suffix("ize", Z4, 0);
      if !hit { NoneFits(Z4, Word()); }
    }

    /** The branches of `step4`, one for each letter. */
    method step4branch(c: char) returns (hit: bool)
      requires Valid()
      modifies `j
      ensures Decides(hit, Branch(STEP4, c))
    {
      Branches4(c);
      hide ApplyFirst, Branch, Takes, Decides;
      if c == 'a' {
        hit := step4a();
      } else if c == 'c' {
        hit := step4c();
      } else if c == 'e' {
        hit := step4e();
      } else if c == 'i' {
        hit := step4i();
      } else if c == 'l' {
        hit := step4l();
      } else if c == 'n' {
        hit := step4n();
      } else if c == 'o' {
        hit := step4o();
      } else if c == 's' {
        hit := step4s();
      } else if c == 't' {
        hit := step4t();
      } else if c == 'u' {
        hit := step4u();
      } else if c == 'v' {
        hit := step4v();
      } else if c == 'z' {
        hit := step4z();
      } else {
        hit := false;
        NothingDecided();
      }
    }

    /** The dispatch of `step4`, on the letter before the last. */
    method step4pick() returns (hit: bool)
      requires Valid()
      modifies `j
      ensures Cuts(hit)
    {
      var c := At(k - 1);
      hit := step4branch(c);
      Step4Grouped();
      Dispatch(STEP4, 2, Word(), c);
      hide ApplyFirst, Branch, Table;
    }

    /** What the end of `step4` makes of the outcome. */
    predicate Cuts(hit: bool)
      requires Valid()
      reads this
    {
      if hit then k0 - 1 <= j < k &&
          Step4(Word()) == (if Measure(Tail(), j - k0 + 1) > 1 then Word()[..j - k0 + 1] else Word())
      else Step4(Word()) == Word()
    }

    lemma NothingDecided()
      requires Valid()
      ensures Decides(false, [])
    {
    }

    method step4()
      requires Valid()
      modifies this
      ensures Kept(old(k0)) && Word() == Step4(old(Word()))
    {
      hide Step4, Measure;
      var hit := step4pick();
      if !hit {
        return;
      }
      var n := m();
      if n > 1 {
        MeasureNeeds(Tail(), j - k0 + 1);
        Shorter(k - j);
        k := j;
      }
    }

    lemma Shorter(n: nat)
      requires Valid() && n < |Word()|
      ensures b[k0..k + 1 - n] == Word()[..|Word()| - n]
    {
    }

    method step1ab()
      requires Valid() && k >= k0 + 2
      modifies this
      ensures Kept(old(k0)) && Word() == Step1b(Step1a(old(Word())))
    {
      step1a();
      step1b();
    }

    method step1a()
      requires Valid() && k >= k0 + 2
      modifies this
      ensures Kept(old(k0)) && Word() == Step1a(old(Word()))
    {
      hide EndsWith;
      Shorter(1);
      Shorter(2);
      if b[k] == 's' {
        var hit := ends("sses");
        if hit {
          k := k - 2;
        } else {
          hit := ends("ies");
          if hit {
            setto("i");
          } else if At(k - 1) != 's' {
            k := k - 1;
          }
        }
      }
    }

    method step1b()
      requires Valid()
      modifies this
      ensures Kept(old(k0)) && Word() == Step1b(old(Word()))
    {
      hide EndsWith, HasVowel, Measure, Repaired;
      var hit := ends("eed");
      if hit {
        WordMeasure(j - k0 + 1);
        var n := m();
        if n > 0 {
          MeasureNeeds(Tail(), j - k0 + 1);
          Shorter(1);
          k := k - 1;
        }
      } else {
        stripEd();
      }
    }

    /** -ed and -ing come off when a vowel is left. */
    method stripEd()
      requires Valid() && !EndsWith(Word(), "eed")
      modifies this
      ensures Kept(old(k0)) && Word() == Step1b(old(Word()))
    {
      hide EndsWith, HasVowel, Measure, Repaired;
      var hit := ends("ed");
      if !hit { hit := ends("ing"); }
      if hit {
        WordMeasure(j - k0 + 1);
        var found := vowelinstem();
        if found {
          VowelNeeds(Tail(), j - k0 + 1);
          Shorter(k - j);
          k := j;
          repair();
        }
      }
    }

    /** `if self.ends(s): self.setto(s + "e")`. */
    method restore(s: string) returns (hit: bool)
      requires Valid() && |s| > 0
      modifies this
      ensures Kept(old(k0)) && hit == EndsWith(old(Word()), s)
      ensures if hit then Word() == old(Word()) + "e" else b == old(b) && k == old(k) && j == old(j)
    {
      ghost var w := Word();
      hide EndsWith;
      hit := ends(s);
      if hit {
        SuffixE(w, s);
        var repl := s + "e";
        assert j - k0 + 1 == |w| - |s|;
        setto(repl);
        hide Word, Tail, Valid;
      }
    }

    /** The inner cascade of `step1ab`, once -ed or -ing is off. */
    method repair()
      requires Valid() && j == k
      modifies this
      ensures Kept(old(k0)) && Word() == Repaired(old(Word()))
    {
      hide EndsWith, Measure, HasVowel, DoubleC, Cvc;
      var hit := restore("at");
      if !hit { hit := restore("bl"); }
      if !hit { hit := restore("iz"); }
      if !hit { trim(); }
    }

    /** The last two cases of the cascade. */
    method trim()
      requires Valid() && j == k
      modifies this
      ensures Kept(old(k0)) && Word() == Trimmed(old(Word()))
    {
      hide Measure, HasVowel, DoubleC, Cvc;
      ghost var w := Word();
      WordMeasure(|w|);
      WordLetters(|w|);
      if doublec(k) {
        DoubleNeeds(Tail(), |w|);
        Shorter(1);
        k := k - 1;
        var ch := b[k];
        if ch == 'l' || ch == 's' || ch == 'z' {
          k := k + 1;
        }
      } else {
        var n := m();
        if n == 1 && cvc(k) {
          setto("e");
        }
      }
    }

    lemma WordLetters(n: nat)
      requires Valid() && n <= |Word()|
      ensures DoubleC(Tail(), n) == DoubleC(Word(), n) && Cvc(Tail(), n) == Cvc(Word(), n)
    {
      assert Tail()[..n] == Word()[..n];
      if n >= 1 { ConsPrefix(Tail(), Word(), n, n - 1); }
      if n >= 2 { ConsPrefix(Tail(), Word(), n, n - 2); }
      if n >= 3 { ConsPrefix(Tail(), Word(), n, n - 3); }
    }

    method step1c()
      requires Valid()
      modifies this
      ensures Kept(old(k0)) && Word() == Step1c(old(Word()))
    {
      hide EndsWith, HasVowel, Measure;
      var hit := ends("y");
      if hit {
        WordMeasure(j - k0 + 1);
        var found := vowelinstem();
        if found {
          VowelNeeds(Tail(), j - k0 + 1);
          Shorter(1);
          LastReplaced(b, k0, k);
          b := b[..k] + "i" + b[k + 1..];
        }
      }
    }

    /** A final -e comes off; `j` still marks the end of the whole word. */
    method step5e() returns (a: nat)
      requires Valid()
      modifies `j, `k
      ensures Kept(old(k0)) && j == old(k) && k0 <= j < |b|
      ensures a == Measure(old(Word()), |old(Word())|) == Measure(Tail(), j - k0 + 1)
      ensures Word() == DropE(old(Word()), a)
    {
      hide Measure, HasVowel, DoubleC;
      ghost var w := Word();
      j := k;
      WordMeasure(|w|);
      WordLetters(|w| - 1);
      a := m();
      if b[k] == 'e' && (a > 1 || (a == 1 && !cvc(k - 1))) {
        MeasureNeeds(Tail(), |w|);
        hide Cvc;
        Shorter(1);
        k := k - 1;
      }
    }

    method step5()
      requires Valid()
      modifies this
      ensures Kept(old(k0)) && Word() == Step5(old(Word()))
    {
      var a := step5e();
      ghost var v := Word();
      WordLetters(|v|);
      hide Measure, HasVowel, Cvc, DoubleC, DropE;
      if b[k] == 'l' && doublec(k) {
        var n := m();
        if n > 1 {
          DoubleNeeds(Tail(), |v|);
          Shorter(1);
          k := k - 1;
        }
      }
    }

    /** The stem of `p[i..last + 1]`, by the plain function on words; very short words come back as they are. */
    method stem(p: string, i: nat, last: int) returns (r: string)
      requires last < |p|
      modifies this
      ensures r == if last <= i + 1 then p else Stem(p[i..last + 1])
    {
      b := p;
      k := last;
      k0 := i;
      if k <= k0 + 1 {
        return b;
      }
      ghost var w := Word();
      assert w == p[i..last + 1];
      StemSteps(w);
      hide Stem, Step1a, Step1b, Step1c, Step2, Step3, Step4, Step5;
      step1ab();
      step1c();
      step2();
      step3();
      step4();
      step5();
      return b[k0..k + 1];
    }
  }

  lemma StemSteps(w: string)
    requires |w| > 2
    ensures |Step1a(w)| > 0 && |Step4(Step3(Step2(Step1c(Step1b(Step1a(w))))))| > 0
    ensures Stem(w) == Step5(Step4(Step3(Step2(Step1c(Step1b(Step1a(w)))))))
  {
    Step1Size(w);
    Tables();
    var w1 := Step1c(Step1b(Step1a(w)));
    hide Step1a, Step1b, Step1c;
    ApplyShortens(Table(STEP2), w1);
    ApplyShortens(Table(STEP3), Step2(w1));
    ApplyShortens(Table(STEP4), Step3(Step2(w1)));
  }

  lemma SuffixE(w: string, s: string)
    requires EndsWith(w, s)
    ensures w[..|w| - |s|] + (s + "e") == w + "e"
  {
    assert w == w[..|w| - |s|] + s;
  }
}
