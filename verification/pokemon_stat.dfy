/** The logic of components/pokemon/PokemonStat.tsx: stat labels, value
    cells and the two-part bar. */
module PokemonStat {
  import opened Wrappers
  import opened JsNumber
  import opened JsString
  import Pokemon

  // ---------------------------------------------------------------------
  // statShortName
  // ---------------------------------------------------------------------

  /** `statShortName(name)`: five rewrites applied in order, then upper
      casing. */
  function StatShortName(name: string): (short: string)
    ensures forall i :: 0 <= i < |short| ==> !IsLowerAscii(short[i])
  {
    ToUpper(Rewrites(name))
  }

  function Rewrites(name: string): string {
    var s1 := ReplaceAll(name, "special", "S");
    var s2 := ReplaceAll(s1, "-", "");
    var s3 := ReplaceAll(s2, "attack", "ATK");
    var s4 := ReplaceAll(s3, "defense", "DEF");
    ReplaceAll(s4, "speed", "SPD")
  }

  /** The label never contains a hyphen: the second rewrite removes every
      one and no later rewrite inserts one. */
  lemma StatShortNameNoHyphen(name: string)
    ensures '-' !in StatShortName(name)
  {
    var s1 := ReplaceAll(name, "special", "S");
    var s2 := ReplaceAll(s1, "-", "");
    ReplaceAllRemovesChar(s1, '-', "");
    var s3 := ReplaceAll(s2, "attack", "ATK");
    ReplaceAllChars(s2, "attack", "ATK");
    var s4 := ReplaceAll(s3, "defense", "DEF");
    ReplaceAllChars(s3, "defense", "DEF");
    var s5 := ReplaceAll(s4, "speed", "SPD");
    ReplaceAllChars(s4, "speed", "SPD");
    assert '-' !in s5;
    var short := StatShortName(name);
    forall i | 0 <= i < |short|
      ensures short[i] != '-'
    {
      assert short[i] == UpperChar(s5[i]) && s5[i] in s5;
    }
  }

  /** Every rewrite shortens its match, so the label is never longer than
      the name. */
  lemma StatShortNameNotLonger(name: string)
    ensures |StatShortName(name)| <= |name|
  {
    var s1 := ReplaceAll(name, "special", "S");
    ReplaceAllNotLonger(name, "special", "S");
    var s2 := ReplaceAll(s1, "-", "");
    ReplaceAllNotLonger(s1, "-", "");
    var s3 := ReplaceAll(s2, "attack", "ATK");
    ReplaceAllNotLonger(s2, "attack", "ATK");
    var s4 := ReplaceAll(s3, "defense", "DEF");
    ReplaceAllNotLonger(s3, "defense", "DEF");
    ReplaceAllNotLonger(s4, "speed", "SPD");
  }

  /** A name in which none of the rewritten words occurs is only upper
      cased. */
  lemma StatShortNameOtherNames(name: string)
    requires !Contains(name, "special") && !Contains(name, "-")
    requires !Contains(name, "attack") && !Contains(name, "defense") && !Contains(name, "speed")
    ensures StatShortName(name) == ToUpper(name)
  {
    ReplaceAllAbsent(name, "special", "S");
    ReplaceAllAbsent(name, "-", "");
    ReplaceAllAbsent(name, "attack", "ATK");
    ReplaceAllAbsent(name, "defense", "DEF");
    ReplaceAllAbsent(name, "speed", "SPD");
  }

  const StatLabels: seq<string> := ["HP", "ATK", "DEF", "SATK", "SDEF", "SPD"]

  /** The six canonical stat names, in the order of the default table, get
      the labels HP, ATK, DEF, SATK, SDEF and SPD. */
  lemma DefaultStatLabels()
    ensures forall i :: 0 <= i < 6 ==> StatShortName(Pokemon.DefaultStats()[i].name) == StatLabels[i]
  {
    var stats := Pokemon.DefaultStats();
    forall i | 0 <= i < 6
      ensures StatShortName(stats[i].name) == StatLabels[i]
    {
      DefaultStatLabel(stats, i);
    }
  }

  lemma DefaultStatLabel(stats: seq<Pokemon.Stat>, i: int)
    requires stats == Pokemon.DefaultStats() && 0 <= i < 6
    ensures StatShortName(stats[i].name) == StatLabels[i]
  {
    if i == 0 {
      assert stats[0].name == "hp";
      LabelOfHp();
    } else if i == 1 {
      assert stats[1].name == "attack";
      LabelOfAttack();
    } else if i == 2 {
      assert stats[2].name == "defense";
      LabelOfDefense();
    } else if i == 3 {
      assert stats[3].name == "special-attack";
      LabelOfSpecialAttack();
    } else if i == 4 {
      assert stats[4].name == "special-defense";
      LabelOfSpecialDefense();
    } else {
      assert stats[5].name == "speed";
      LabelOfSpeed();
    }
  }

  lemma ToUpperOfUpper(s: string)
    requires forall c :: c in s ==> !IsLowerAscii(c)
    ensures ToUpper(s) == s
  {
    assert forall i :: 0 <= i < |s| ==> s[i] in s;
  }

  /** The label of a name, one rewrite at a time. */
  lemma LabelFromSteps(n: string, m1: string, m2: string, m3: string, m4: string, m5: string, short: string)
    requires ReplaceAll(n, "special", "S") == m1
    requires ReplaceAll(m1, "-", "") == m2
    requires ReplaceAll(m2, "attack", "ATK") == m3
    requires ReplaceAll(m3, "defense", "DEF") == m4
    requires ReplaceAll(m4, "speed", "SPD") == m5
    requires ToUpper(m5) == short
    ensures StatShortName(n) == short
  {
  }

  /** Upper-case text without `d` or `s` is left alone by the last two
      rewrites and by upper casing. */
  lemma FinalText(d: string)
    requires 'd' !in d && 's' !in d
    requires forall c :: c in d ==> !IsLowerAscii(c)
    ensures ReplaceAll(d, "defense", "DEF") == d
    ensures ReplaceAll(d, "speed", "SPD") == d
    ensures ToUpper(d) == d
  {
    ReplaceAllKeeps(d, "defense", "DEF");
    ReplaceAllKeeps(d, "speed", "SPD");
    ToUpperOfUpper(d);
  }

  /** A rewrite whose pattern occurs once, its first character appearing
      nowhere else. */
  lemma RewriteOnce(n: string, a: string, p: string, b: string, r: string, m: string)
    requires |p| > 0 && n == a + p + b && p[0] !in a && p[0] !in b && m == a + r + b
    ensures ReplaceAll(n, p, r) == m
  {
    ReplaceAllOnce(a, b, p, r);
  }

  /** The same, when the pattern's first character reappears only in a tail
      too short to hold the pattern. */
  lemma RewriteOnceThenShort(n: string, a: string, p: string, b: string, c: string, r: string, m: string)
    requires |p| > 0 && n == a + p + (b + c) && p[0] !in a && p[0] !in b && |c| < |p|
    requires m == a + r + (b + c)
    ensures ReplaceAll(n, p, r) == m
  {
    ReplaceAllOnceThenShort(a, b, c, p, r);
  }

  /** The labels the rewrites leave before their last steps are final:
      the remaining rewrites and upper casing keep them. */
  lemma LabelTail(d: string)
    requires d == "ATK" || d == "DEF" || d == "SATK" || d == "SDEF" || d == "SPD"
    ensures ReplaceAll(d, "defense", "DEF") == d
    ensures ReplaceAll(d, "speed", "SPD") == d
    ensures ToUpper(d) == d
  {
    FinalText(d);
  }

  lemma LabelOfHp()
    ensures StatShortName("hp") == "HP"
  {
    HpSteps("hp");
    LabelFromSteps("hp", "hp", "hp", "hp", "hp", "hp", "HP");
  }

  lemma HpSteps(n: string)
    requires n == "hp"
    ensures ReplaceAll(n, "special", "S") == n
    ensures ReplaceAll(n, "-", "") == n
    ensures ReplaceAll(n, "attack", "ATK") == n
    ensures ReplaceAll(n, "defense", "DEF") == n
    ensures ReplaceAll(n, "speed", "SPD") == n
    ensures ToUpper(n) == "HP"
  {
    ReplaceAllKeeps(n, "special", "S");
    ReplaceAllKeeps(n, "-", "");
    ReplaceAllKeeps(n, "attack", "ATK");
    ReplaceAllKeeps(n, "defense", "DEF");
    ReplaceAllKeeps(n, "speed", "SPD");
  }

  lemma LabelOfAttack()
    ensures StatShortName("attack") == "ATK"
  {
    AttackSteps("attack");
    LabelTail("ATK");
    LabelFromSteps("attack", "attack", "attack", "ATK", "ATK", "ATK", "ATK");
  }

  lemma AttackSteps(n: string)
    requires n == "attack"
    ensures ReplaceAll(n, "special", "S") == n
    ensures ReplaceAll(n, "-", "") == n
    ensures ReplaceAll(n, "attack", "ATK") == "ATK"
  {
    ReplaceAllKeeps(n, "special", "S");
    ReplaceAllKeeps(n, "-", "");
    ReplaceAllWhole(n, "ATK");
  }

  lemma LabelOfDefense()
    ensures StatShortName("defense") == "DEF"
  {
    DefenseSteps("defense");
    LabelTail("DEF");
    LabelFromSteps("defense", "defense", "defense", "defense", "DEF", "DEF", "DEF");
  }

  lemma DefenseSteps(n: string)
    requires n == "defense"
    ensures ReplaceAll(n, "special", "S") == n
    ensures ReplaceAll(n, "-", "") == n
    ensures ReplaceAll(n, "attack", "ATK") == n
    ensures ReplaceAll(n, "defense", "DEF") == "DEF"
  {
    LongerWordAbsent(n);
    ReplaceAllKeeps(n, "-", "");
    ReplaceAllKeeps(n, "attack", "ATK");
    ReplaceAllWhole(n, "DEF");
  }

  /** `special` could start in `defense` only at its final `se`, and
      `defense` in `speed` only at its final `d`: both tails are too short. */
  lemma LongerWordAbsent(n: string)
    requires n == "defense" || n == "speed"
    ensures n == "defense" ==> ReplaceAll(n, "special", "S") == n
    ensures n == "speed" ==> ReplaceAll(n, "defense", "DEF") == n
  {
    if n == "defense" {
      assert n == "defen" + "se";
      ReplaceAllUnchanged("defen", "se", "special", "S");
    } else {
      assert n == "spee" + "d";
      ReplaceAllUnchanged("spee", "d", "defense", "DEF");
    }
  }

  lemma LabelOfSpecialAttack()
    ensures StatShortName("special-attack") == "SATK"
  {
    SpecialAttackStep1("special-attack");
    DropHyphen("S-attack");
    SpecialAttackStep3("Sattack");
    LabelTail("SATK");
    LabelFromSteps("special-attack", "S-attack", "Sattack", "SATK", "SATK", "SATK", "SATK");
  }

  lemma SpecialAttackStep1(n: string)
    requires n == "special-attack"
    ensures ReplaceAll(n, "special", "S") == "S-attack"
  {
    RewriteOnce(n, "", "special", "-attack", "S", "S-attack");
  }

  /** After `special` became `S`, the hyphen behind it is the only one. */
  lemma DropHyphen(n: string)
    requires n == "S-attack" || n == "S-defense"
    ensures ReplaceAll(n, "-", "") == if n == "S-attack" then "Sattack" else "Sdefense"
  {
    if n == "S-attack" {
      RewriteOnce(n, "S", "-", "attack", "", "Sattack");
    } else {
      RewriteOnce(n, "S", "-", "defense", "", "Sdefense");
    }
  }

  lemma SpecialAttackStep3(n: string)
    requires n == "Sattack"
    ensures ReplaceAll(n, "attack", "ATK") == "SATK"
  {
    RewriteOnce(n, "S", "attack", "", "ATK", "SATK");
  }

  lemma LabelOfSpecialDefense()
    ensures StatShortName("special-defense") == "SDEF"
  {
    SpecialDefenseStep1("special-defense");
    DropHyphen("S-defense");
    SpecialDefenseStep3("Sdefense");
    SpecialDefenseStep4("Sdefense");
    LabelTail("SDEF");
    LabelFromSteps("special-defense", "S-defense", "Sdefense", "Sdefense", "SDEF", "SDEF", "SDEF");
  }

  lemma SpecialDefenseStep1(n: string)
    requires n == "special-defense"
    ensures ReplaceAll(n, "special", "S") == "S-defense"
  {
    RewriteOnceThenShort(n, "", "special", "-defen", "se", "S", "S-defense");
  }

  lemma SpecialDefenseStep3(n: string)
    requires n == "Sdefense"
    ensures ReplaceAll(n, "attack", "ATK") == n
  {
    ReplaceAllKeeps(n, "attack", "ATK");
  }

  lemma SpecialDefenseStep4(n: string)
    requires n == "Sdefense"
    ensures ReplaceAll(n, "defense", "DEF") == "SDEF"
  {
    RewriteOnce(n, "S", "defense", "", "DEF", "SDEF");
  }

  lemma LabelOfSpeed()
    ensures StatShortName("speed") == "SPD"
  {
    SpeedSteps("speed");
    LabelTail("SPD");
    LabelFromSteps("speed", "speed", "speed", "speed", "speed", "SPD", "SPD");
  }

  lemma SpeedSteps(n: string)
    requires n == "speed"
    ensures ReplaceAll(n, "special", "S") == n
    ensures ReplaceAll(n, "-", "") == n
    ensures ReplaceAll(n, "attack", "ATK") == n
    ensures ReplaceAll(n, "defense", "DEF") == n
    ensures ReplaceAll(n, "speed", "SPD") == "SPD"
  {
    ReplaceAllShort(n, "special", "S");
    ReplaceAllKeeps(n, "-", "");
    ReplaceAllKeeps(n, "attack", "ATK");
    LongerWordAbsent(n);
    ReplaceAllWhole(n, "SPD");
  }

  // ---------------------------------------------------------------------
  // Zero-padded numbers
  // ---------------------------------------------------------------------

  /** `n.toString().padStart(3, '0')`: the stat value cell, and the id of a
      card after its `#` (see `PokemonCard`). The text is widened to three
      characters with
      leading zeros and is otherwise the number's own text. */
  function PadThree(n: int): (cell: string)
    ensures |cell| == if |IntToString(n)| >= 3 then |IntToString(n)| else 3
    ensures EndsWith(cell, IntToString(n))
    ensures forall i :: 0 <= i < |cell| - |IntToString(n)| ==> cell[i] == '0'
  {
    PadStart(IntToString(n), 3, '0')
  }

  /** Padding a non-negative number keeps its value for parseInt. */
  lemma PadThreeRoundTrip(n: int)
    requires n >= 0
    ensures ParseInt(PadThree(n)) == Some(n)
  {
    var s := Decimal(n);
    var t := PadThree(n);
    var z := t[..|t| - |s|];
    assert t == z + s;
    DigitsValueZeroPrefix(z, s);
    ParseIntOfDigitsThen(t, []);
    assert t + [] == t;
    DigitsValueOfDecimal(n);
  }

  /** The padded text is exactly three characters for -99 to 999 and the
      plain decimal text beyond. */
  lemma PadThreeLength(n: int)
    ensures |PadThree(n)| == 3 <==> -100 < n < 1000
  {
    var t := IntToString(n);
    assert |PadThree(n)| == 3 <==> |t| <= 3;
    if n >= 0 {
      assert t == Decimal(n);
      DecimalLength(n, 3);
      assert Pow10(3) == 1000;
    } else {
      var m: nat := -n;
      NegativeText(n, m);
      DecimalLength(m, 2);
      assert Pow10(2) == 100;
    }
  }

  // ---------------------------------------------------------------------
  // Stat bar
  // ---------------------------------------------------------------------

  const BarTotal := 250

  /** Flex weights of the filled part and of the background of a stat
      bar. */
  datatype BarFlex = BarFlex(inner: int, background: int)

  /** The bar for the value currently shown (the animated shared value):
      the filled part takes the value and the background the rest of 250,
      so the background weight goes negative above 250. */
  function StatBar(shown: int): (f: BarFlex)
    ensures f.inner == shown
    ensures f.inner + f.background == BarTotal
    ensures f.background >= 0 <==> shown <= BarTotal
  {
    BarFlex(shown, BarTotal - shown)
  }
}
