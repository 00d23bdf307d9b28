/** The words that the comments of the stemmer give as examples, and for every step a word that it changes. */
module StemmerWords {
  import opened Stemmer
  import opened StemmerRules

  lemma PluralWords()
    ensures Step1a("caresses") == "caress" && Step1a("ponies") == "poni" && Step1a("ties") == "ti"
    ensures Step1a("caress") == "caress" && Step1a("cats") == "cat"
  {
    hide Step1a;
    EsWords();
    Cats();
  }

  lemma EsWords()
    ensures Step1a("caresses") == "caress" && Step1a("ponies") == "poni" && Step1a("ties") == "ti"
    ensures Step1a("caress") == "caress"
  {
    hide Step1a;
    PluralEs("care");
    PluralEs("pon");
    PluralEs("t");
    PluralS("care");
    assert "care" + "sses" == "caresses" && "care" + "ss" == "caress";
    assert "pon" + "ies" == "ponies" && "pon" + "i" == "poni" && "t" + "ies" == "ties" && "t" + "i" == "ti";
  }

  lemma Cats()
    ensures Step1a("cats") == "cat"
  {
    hide Step1a, EndsWith;
    EndsDisagree("cat", "s", 1);
    EndsDisagree("cat", "sse", 1);
    EndsDisagree("cat", "ie", 1);
    OneS("cat");
    assert "cat" + "s" == "cats";
  }

  lemma EedWords()
    ensures Step1b("feed") == "feed" && Step1b("agreed") == "agree"
  {
    hide Step1b;
    Eed("f");
    Eed("agr");
    assert Measure("agr", 1) == 0 && Measure("agr", 2) == 1 && Measure("agr", 3) == 1;
    assert "f" + "eed" == "feed" && "agr" + "eed" == "agreed" && "agr" + "ee" == "agree";
  }

  /** The stem has a vowel second. */
  predicate VowelSecond(x: string) {
    |x| >= 3 && x[1] != 'y' && Aeiou(x[1]) && !Aeiou(x[0]) && x[0] != 'y'
  }

  lemma IngMends(x: string)
    requires VowelSecond(x)
    ensures Mended(x, Step1b(x + "ing"))
  {
    hide Mended, Step1b;
    Ing(x);
    assert !Cons(x, 1);
  }

  /** A stem that ends with neither -at, -bl nor -iz. */
  lemma WantsNoE(x: string)
    requires |x| >= 2 && x[|x| - 1] != 't' && x[|x| - 1] != 'l' && x[|x| - 1] != 'z'
    ensures !WantsE(x)
  {
    EndsDisagree(x, "at", 1);
    EndsDisagree(x, "bl", 1);
    EndsDisagree(x, "iz", 1);
  }

  lemma WantsNoE2(x: string)
    requires |x| >= 2 && x[|x| - 2] != 'a' && x[|x| - 2] != 'b' && x[|x| - 2] != 'i'
    ensures !WantsE(x)
  {
    EndsDisagree(x, "at", 2);
    EndsDisagree(x, "bl", 2);
    EndsDisagree(x, "iz", 2);
  }

  /** A doubled consonant loses one letter, but not l, s or z. */
  lemma DoubledStem(x: string)
    requires VowelSecond(x) && |x| == 4 && x[2] == x[3] && !Aeiou(x[2]) && x[2] != 'y' && x[2] != 'b'
    ensures Step1b(x + "ing") == if x[3] == 'l' || x[3] == 's' || x[3] == 'z' then x else x[..3]
  {
    IngMends(x);
    WantsNoE2(x);
    hide WantsE, Step1b;
    var r := Step1b(x + "ing");
    assert Doubled(x);
    if !(x[3] == 'l' || x[3] == 's' || x[3] == 'z') {
      assert r + [x[3]] == x;
      assert (r + [x[3]])[..3] == r;
    }
  }

  lemma DoubledWords()
    ensures Step1b("matting") == "mat" && Step1b("milling") == "mill" && Step1b("messing") == "mess"
    ensures Step1b("hopping") == "hop"
  {
    hide Step1b;
    DoubledStem("matt");
    DoubledStem("mill");
    DoubledStem("mess");
    DoubledStem("hopp");
    assert "matt" + "ing" == "matting" && "matt"[..3] == "mat" && "mill" + "ing" == "milling";
    assert "mess" + "ing" == "messing" && "hopp" + "ing" == "hopping" && "hopp"[..3] == "hop";
  }

  lemma SaidOfThree(x: string)
    requires VowelSecond(x) && |x| == 3 && !Aeiou(x[2])
    ensures x[2] != 'y' ==> Measure(x, 3) == 1 && Cons(x, 2) && Cons(x, 0) && !Cons(x, 1)
    ensures x[2] == 'y' ==> Cons(x, 2)
  {
    assert Measure(x, 1) == 0 && Measure(x, 2) == 0;
  }

  /** A short stem gets an e, unless it ends in w, x or y. */
  lemma ShortStems(x: string)
    requires VowelSecond(x) && |x| == 3 && !Aeiou(x[2]) && x[2] != x[1]
    requires x[2] != 't' && x[2] != 'l' && x[2] != 'z'
    ensures Step1b(x + "ing") == if x[2] == 'w' || x[2] == 'x' || x[2] == 'y' then x else x + "e"
  {
    IngMends(x);
    WantsNoE(x);
    SaidOfThree(x);
    hide WantsE, Step1b, Measure, Cons;
  }

  lemma ShortWords()
    ensures Step1b("hoping") == "hope" && Step1b("loving") == "love"
    ensures Step1b("boxing") == "box" && Step1b("sowing") == "sow" && Step1b("paying") == "pay"
  {
    hide Step1b;
    ShortStems("hop");
    ShortStems("lov");
    ShortStems("box");
    ShortStems("sow");
    ShortStems("pay");
    assert "hop" + "ing" == "hoping" && "hop" + "e" == "hope" && "lov" + "ing" == "loving" && "lov" + "e" == "love";
    assert "box" + "ing" == "boxing" && "sow" + "ing" == "sowing" && "pay" + "ing" == "paying";
  }

  lemma OtherWords()
    ensures Step1b("disabled") == "disable" && Step1b("mating") == "mate" && Step1b("meeting") == "meet"
    ensures Step1b("sky") == "sky" && Step1b("sing") == "sing"
  {
    Disabled();
    Mating();
    Meeting();
    Sing();
    hide Step1b;
  }

  lemma Disabled()
    ensures Step1b("disabled") == "disable"
  {
    hide Step1b, Measure;
    var x := "disabl";
    EndsDisagree(x, "e", 1);
    Ed(x);
    assert !Cons(x, 1);
    Ends("disa", "bl");
    assert "disa" + "bl" == x && x + "ed" == "disabled" && x + "e" == "disable";
  }

  lemma Mating()
    ensures Step1b("mating") == "mate"
  {
    hide Step1b, EndsWith, Doubled, ShortEnd, Measure;
    IngMends("mat");
    Ends("m", "at");
    assert "m" + "at" == "mat" && "mat" + "ing" == "mating" && "mat" + "e" == "mate";
    assert WantsE("mat");
  }

  lemma Meeting()
    ensures Step1b("meeting") == "meet"
  {
    hide Step1b;
    var x := "meet";
    IngMends(x);
    WantsNoE2(x);
    hide WantsE, Measure;
    assert !Cons(x, 2) && x + "ing" == "meeting";
  }

  lemma Sing()
    ensures Step1b("sky") == "sky" && Step1b("sing") == "sing"
  {
    hide Step1b, EndsWith;
    EndsDisagree("sky", "ed", 1);
    EndsDisagree("sky", "ing", 1);
    NoEdOrIng("sky");
    Ing("s");
    assert "s" + "ing" == "sing";
  }

  lemma YWords()
    ensures Step1c("happy") == "happi" && Step1c("sky") == "sky"
  {
    hide Step1c;
    FinalY("happ");
    FinalY("sk");
    assert !Cons("happ", 1);
    assert "happ" + "y" == "happy" && "happ" + "i" == "happi" && "sk" + "y" == "sky";
  }

  // ----- Whole stems -----

  /** A stem in five parts. */
  lemma StemOf(w: string, a: string, b: string, c: string, d: string)
    requires |w| > 2 && Step1a(w) == a && Step1b(a) == b && Step1c(b) == c && Step2(c) == d
    requires d != [] && Step4(Step3(d)) != []
    ensures Stem(w) == Step5(Step4(Step3(d)))
  {
    hide Step1a, Step1b, Step1c, Step2, Step3, Step4, Step5;
    Step1Size(w);
  }

  lemma Happy()
    ensures Stem("happy") == "happi"
  {
    hide Step1a, Step1b, Step1c, Step2, Step3, Step4, Step5, Stem, EndsWith;
    Quiet1("happy");
    YWords();
    Quiet2("happi");
    EndsDisagree("happi", "iciti", 2);
    Quiet3I("happi");
    Quiet4("happi");
    NotLl("happi");
    NoFinalEOrLl("happi");
    StemOf("happy", "happy", "happy", "happi", "happi");
  }

  lemma NotLl(w: string)
    requires w != [] && w[|w| - 1] != 'l'
    ensures !EndsWith(w, "ll")
  {
    EndsDisagree(w, "ll", 1);
  }

  lemma Quiet3I(w: string)
    requires w != [] && w[|w| - 1] == 'i' && !EndsWith(w, "iciti")
    ensures Step3(w) == w
  {
    hide EndsWith, Table, ApplyFirst;
    Step3Grouped();
    BranchQuiet(STEP3, 1, 1, w);
  }

  lemma Quiet3E(w: string)
    requires w != [] && w[|w| - 1] == 'e' && !EndsWith(w, "icate") && !EndsWith(w, "ative") && !EndsWith(w, "alize")
    ensures Step3(w) == w
  {
    hide EndsWith, Table, ApplyFirst;
    Step3Grouped();
    BranchQuiet(STEP3, 1, 0, w);
  }

  lemma Quiet3L(w: string)
    requires w != [] && w[|w| - 1] == 'l' && !EndsWith(w, "ical") && !EndsWith(w, "ful")
    ensures Step3(w) == w
  {
    hide EndsWith, Table, ApplyFirst;
    Step3Grouped();
    BranchQuiet(STEP3, 1, 2, w);
  }

  /** All suffixes of the branch end in one letter, and the word in another. */
  lemma QuietEnd(groups: seq<Group>, gi: nat, last: char, w: string)
    requires |w| >= 2 && Grouped(groups, 2) && gi < |groups| && w[|w| - 2] == groups[gi].letter
    requires w[|w| - 1] != last && Keyed(Group(last, groups[gi].rules), 1)
    ensures ApplyFirst(Table(groups), w) == w
  {
    hide ApplyFirst, Table, NoneMatch;
    KeyedMatch(Group(last, groups[gi].rules), 1, w);
    BranchQuiet(groups, 2, gi, w);
  }

  lemma Quiet2End(gi: nat, last: char, w: string)
    requires |w| >= 2 && gi < |STEP2| && w[|w| - 2] == STEP2[gi].letter
    requires w[|w| - 1] != last && Keyed(Group(last, STEP2[gi].rules), 1)
    ensures Step2(w) == w
  {
    hide Table, ApplyFirst, Grouped;
    Step2Grouped();
    QuietEnd(STEP2, gi, last, w);
  }

  lemma Quiet4End(gi: nat, last: char, w: string)
    requires |w| >= 2 && gi < |STEP4| && w[|w| - 2] == STEP4[gi].letter
    requires w[|w| - 1] != last && Keyed(Group(last, STEP4[gi].rules), 1)
    ensures Step4(w) == w
  {
    hide Table, ApplyFirst, Grouped;
    Step4Grouped();
    QuietEnd(STEP4, gi, last, w);
  }

  lemma Ponies()
    ensures Stem("ponies") == "poni"
  {
    hide Step1a, Step1b, Step1c, Step2, Step3, Step4, Step5, Stem, EndsWith;
    EsWords();
    Quiet1("poni");
    Quiet2("poni");
    EndsDisagree("poni", "iciti", 2);
    Quiet3I("poni");
    Quiet4End(5, 't', "poni");
    NotLl("poni");
    NoFinalEOrLl("poni");
    StemOf("ponies", "poni", "poni", "poni", "poni");
  }

  lemma Matting()
    ensures Stem("matting") == "mat"
  {
    hide Step1a, Step1b, Step1c, Step2, Step3, Step4, Step5, Stem, EndsWith;
    NoPlural("matting");
    DoubledWords();
    NoFinalY("mat");
    Quiet2End(0, 'l', "mat");
    Quiet3("mat");
    Quiet4End(0, 'l', "mat");
    NotLl("mat");
    NoFinalEOrLl("mat");
    StemOf("matting", "matting", "mat", "mat", "mat");
  }

  lemma Relational()
    ensures Stem("relational") == "relat"
  {
    hide Step1a, Step1b, Step1c, Step2, Step3, Step4, Step5, Stem, EndsWith, Measure;
    Quiet1("relational");
    RelMeasure();
    Rows2A("rel");
    Rows4StoZ("rel");
    assert "rel" + "ational" == "relational" && "rel" + "ate" == "relate" && "relat" + "e" == "relate";
    EndsDisagree("relate", "icate", 4);
    EndsDisagree("relate", "ative", 2);
    EndsDisagree("relate", "alize", 2);
    Quiet3E("relate");
    NotLl("relat");
    FinalE("relat");
    StemOf("relational", "relational", "relational", "relational", "relate");
  }

  lemma RelMeasure()
    ensures Measure("rel", 3) == 1 && Measure("relate", 6) == 2
  {
    var w := "relate";
    assert Measure(w, 2) == 0 && Measure(w, 3) == 1 && Measure(w, 4) == 1 && Measure(w, 5) == 2;
    assert Measure("rel", 2) == 0;
  }

  lemma Hopeful()
    ensures Stem("hopeful") == "hope"
  {
    hide Step1a, Step1b, Step1c, Step2, Step3, Step4, Step5, Stem, EndsWith, Measure;
    Quiet1("hopeful");
    Quiet2("hopeful");
    HopeMeasure();
    Rows3("hope");
    assert "hope" + "ful" == "hopeful" && "hope" + "" == "hope" && "hop" + "e" == "hope";
    Quiet4("hope");
    FinalE("hop");
    StemOf("hopeful", "hopeful", "hopeful", "hopeful", "hopeful");
  }

  lemma HopeMeasure()
    ensures Measure("hope", 4) == 1 && ShortEnd("hop")
  {
    var w := "hope";
    assert Measure(w, 1) == 0 && Measure(w, 2) == 0 && Measure(w, 3) == 1;
  }

  lemma Allowance()
    ensures Stem("allowance") == "allow"
  {
    hide Step1a, Step1b, Step1c, Step2, Step3, Step4, Step5, Stem, EndsWith, Measure;
    Quiet1("allowance");
    Quiet2End(1, 'i', "allowance");
    EndsDisagree("allowance", "icate", 2);
    EndsDisagree("allowance", "ative", 2);
    EndsDisagree("allowance", "alize", 2);
    Quiet3E("allowance");
    AllowMeasure();
    Rows4AtoL("allow");
    assert "allow" + "ance" == "allowance" && "allow" + "" == "allow";
    NotLl("allow");
    NoFinalEOrLl("allow");
    StemOf("allowance", "allowance", "allowance", "allowance", "allowance");
  }

  lemma AllowMeasure()
    ensures Measure("allow", 5) == 2
  {
    var w := "allow";
    assert Measure(w, 1) == 0 && Measure(w, 2) == 1 && Measure(w, 3) == 1 && Measure(w, 4) == 1;
  }

  lemma Controll()
    ensures Stem("controll") == "control"
  {
    hide Step1a, Step1b, Step1c, Step2, Step3, Step4, Step5, Stem, EndsWith, Measure;
    Quiet1("controll");
    Quiet2End(3, 'i', "controll");
    EndsDisagree("controll", "ical", 2);
    EndsDisagree("controll", "ful", 2);
    Quiet3L("controll");
    Quiet4End(4, 'e', "controll");
    ControllMeasure();
    FinalLl("contro");
    assert "contro" + "ll" == "controll" && "contro" + "l" == "control";
    StemOf("controll", "controll", "controll", "controll", "controll");
  }

  lemma ControllMeasure()
    ensures Measure("controll", 8) == 2
  {
    var w := "controll";
    assert Measure(w, 1) == 0 && Measure(w, 2) == 0 && Measure(w, 3) == 1 && Measure(w, 4) == 1;
    assert Measure(w, 5) == 1 && Measure(w, 6) == 1 && Measure(w, 7) == 2;
  }

  /** Every step is needed for one of these. */
  lemma WholeWords()
    ensures Stem("ponies") == "poni" && Stem("matting") == "mat" && Stem("happy") == "happi"
    ensures Stem("relational") == "relat" && Stem("hopeful") == "hope" && Stem("allowance") == "allow"
    ensures Stem("controll") == "control"
  {
    hide Stem;
    Ponies();
    Matting();
    Happy();
    Relational();
    Hopeful();
    Allowance();
    Controll();
  }
}
