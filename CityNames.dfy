/** The two rules the scripts use to canonicalise the `city` column.

    Every script replaces known typos and abbreviations with a whole-value
    lookup (pandas `Series.replace` with a dict). The five earlier scripts
    title-case the cell first and look up the title-cased value in a table
    whose keys are `Denvre`, `nyc` and `la`; the latest script lower-cases the
    cell, looks it up in a table with lower-case keys and title-cases the
    result. */
module CityNames {
  import opened Cells

  /** The replacement table of the earlier scripts, keys as written there. */
  const LegacyTypos: map<string, string> :=
    map["Denvre" := "Denver", "nyc" := "new york", "la" := "los angeles"]

  /** The replacement table of the latest script. */
  const Typos: map<string, string> :=
    map["denvre" := "denver", "nyc" := "new york", "la" := "los angeles"]

  /** `Series.replace(table)` on one text value: the whole value is looked up,
      never a substring of it. */
  function Replace(table: map<string, string>, s: string): string {
    if s in table then table[s] else s
  }

  /** The earlier scripts' rule: `.str.title()` then `.replace(LegacyTypos)`.
      The `.str` accessor turns a missing or non-text cell into a missing
      value, which the lookup leaves alone. */
  function LegacyCity(c: Cell): Cell {
    match c
    case Text(s) => Text(Replace(LegacyTypos, Title(s)))
    case _ => Null
  }

  /** The latest script's rule: `.str.lower()`, `.replace(Typos)`, `.str.title()`. */
  function City(c: Cell): Cell {
    match c
    case Text(s) => Text(Title(Replace(Typos, Lower(s))))
    case _ => Null
  }

  // ---------------------------------------------------------------------------
  // The earlier scripts' rule

  /** Only the `Denvre` entry of the earlier table can ever fire: a title-cased
      value never starts with a lower-case letter, so the keys `nyc` and `la`
      never match. The rule is therefore plain title-casing except that
      `Denvre` becomes `Denver`. */
  lemma LegacyCityIsTitleExceptDenvre(s: string)
    ensures LegacyCity(Text(s)) == Text(if Title(s) == "Denvre" then "Denver" else Title(s))
  {
    var t := Title(s);
    if |s| > 0 {
      TitleStartsUnlowered(s);
      assert t != "nyc" by { assert "nyc"[0] == 'n'; }
      assert t != "la" by { assert "la"[0] == 'l'; }
    }
  }

  /** The earlier rule never produces the expansions of the dead keys. */
  lemma LegacyCityNeverExpands(c: Cell)
    ensures LegacyCity(c) != Text("new york")
    ensures LegacyCity(c) != Text("los angeles")
  {
    if c.Text? {
      LegacyCityIsTitleExceptDenvre(c.s);
      if |c.s| > 0 { TitleStartsUnlowered(c.s); }
      assert "new york"[0] == 'n' && "los angeles"[0] == 'l';
    }
  }

  /** Every city the earlier rule produces is already title-cased. */
  lemma LegacyCityIsTitleCase(c: Cell)
    ensures LegacyCity(c).Text? ==> IsTitleCase(LegacyCity(c).s)
  {
    if c.Text? {
      LegacyCityIsTitleExceptDenvre(c.s);
      TitleIdempotent(c.s);
      assert Title("Denver") == "Denver";
    }
  }

  /** The earlier rule keeps a text cell a text cell and a missing cell missing. */
  lemma LegacyCityKeepsPresence(c: Cell)
    ensures LegacyCity(c).Text? <==> c.Text?
    ensures LegacyCity(c) == Null <==> !c.Text?
  {
  }

  /** Examples of the earlier rule: the typo is fixed, the abbreviations are not. */
  lemma LegacyCityExamples()
    ensures LegacyCity(Text("denvre")) == Text("Denver")
    ensures LegacyCity(Text("DENVRE")) == Text("Denver")
    ensures LegacyCity(Text("NYC")) == Text("Nyc")
    ensures LegacyCity(Text("nyc")) == Text("Nyc")
    ensures LegacyCity(Text("la")) == Text("La")
    ensures LegacyCity(Null) == Null
  {
    assert Title("denvre") == "Denvre";
    assert Title("DENVRE") == "Denvre";
    assert Title("NYC") == "Nyc";
    assert Title("nyc") == "Nyc";
    assert Title("la") == "La";
  }

  // ---------------------------------------------------------------------------
  // The latest script's rule

  /** The latest rule ignores the case of its input. */
  lemma CityIgnoresCase(s: string, t: string)
    requires Lower(s) == Lower(t)
    ensures City(Text(s)) == City(Text(t))
  {
  }

  /** A value the latest table produces is lower-case and is not itself a key,
      and lower-case input stays lower-case through the lookup. */
  lemma TyposClosed(s: string)
    requires IsLowerCase(s)
    ensures IsLowerCase(Replace(Typos, s))
    ensures Replace(Typos, s) !in Typos
  {
    if s in Typos {
      assert Lower("denver") == "denver";
      assert Lower("new york") == "new york";
      assert Lower("los angeles") == "los angeles";
    } else {
      assert Replace(Typos, s) == s;
    }
  }

  /** The latest rule, read as a whole-value decision: a value that is a key
      up to case is replaced, any other value is only title-cased. */
  lemma CityLookupIsWholeValue(s: string)
    ensures Lower(s) in Typos ==> City(Text(s)) == Text(Title(Typos[Lower(s)]))
    ensures Lower(s) !in Typos ==> City(Text(s)) == Text(Title(s))
  {
    TitleOfLower(s);
  }

  /** Every city the latest rule produces is title-cased. */
  lemma CityIsTitleCase(c: Cell)
    ensures City(c).Text? ==> IsTitleCase(City(c).s)
  {
    if c.Text? {
      TitleIdempotent(Replace(Typos, Lower(c.s)));
    }
  }

  /** Applying the latest rule twice gives what applying it once gives. */
  lemma CityIdempotent(c: Cell)
    ensures City(City(c)) == City(c)
  {
    if c.Text? {
      var l := Lower(c.s);
      LowerIdempotent(c.s);
      var y := Replace(Typos, l);
      TyposClosed(l);
      // the second pass lower-cases Title(y) back to y, which no key matches
      LowerOfTitle(y);
      assert Lower(Title(y)) == y;
      assert Replace(Typos, Lower(Title(y))) == y;
    }
  }

  /** The latest rule maps a cell to "New York" exactly when the cell reads
      `nyc` or `new york` in some mixture of cases. */
  lemma CityIsNewYorkIff(s: string)
    ensures City(Text(s)) == Text("New York") <==> Lower(s) == "nyc" || Lower(s) == "new york"
  {
    var l := Lower(s);
    LowerIdempotent(s);
    var y := Replace(Typos, l);
    TyposClosed(l);
    assert Title("new york") == "New York";
    assert Lower("New York") == "new york";
    if Title(y) == "New York" {
      LowerOfTitle(y);
      assert y == "new york";
      if l !in Typos {
        assert l == "new york";
      } else {
        assert Typos[l] == "new york";
        assert l == "nyc";
      }
    }
    if l == "nyc" {
      assert y == "new york";
    }
    if l == "new york" {
      assert l !in Typos;
      assert y == "new york";
    }
  }

  /** The latest rule subsumes the earlier one: re-canonicalising a city the
      earlier rule produced gives what the latest rule gives on the raw cell. */
  lemma CityAfterLegacyCity(c: Cell)
    ensures City(LegacyCity(c)) == City(c)
  {
    if c.Text? {
      var t := Title(c.s);
      LegacyCityIsTitleExceptDenvre(c.s);
      LowerOfTitle(c.s);
      if t == "Denvre" {
        assert Lower("Denver") == "denver";
        assert Lower("Denvre") == "denvre";
        assert Lower(c.s) == "denvre";
      }
    }
  }

  /** Examples of the latest rule: "nyc" in any case becomes "New York". */
  lemma CityExpandsNyc()
    ensures City(Text("NYC")) == Text("New York")
    ensures City(Text("nyc")) == Text("New York")
    ensures City(Text("Nyc")) == Text("New York")
  {
    assert Lower("NYC") == "nyc";
    assert Lower("nyc") == "nyc";
    assert Lower("Nyc") == "nyc";
    CityIsNewYorkIff("NYC");
    CityIsNewYorkIff("nyc");
    CityIsNewYorkIff("Nyc");
  }

  /** Examples of the latest rule: the typo and the other abbreviation are
      fixed whatever their case, and a missing city stays missing. */
  lemma CityFixesTypos()
    ensures City(Text("DENVRE")) == Text("Denver")
    ensures City(Text("LA")) == Text("Los Angeles")
    ensures City(Null) == Null
  {
    assert Lower("DENVRE") == "denvre";
    assert Title("denver") == "Denver";
    assert Lower("LA") == "la";
    assert Title("los angeles") == "Los Angeles";
  }

  /** Examples of the latest rule: a key inside a longer value is not replaced,
      and a canonical name is left as it is. */
  lemma CityMatchesWholeValues()
    ensures City(Text("la paz")) == Text("La Paz")
    ensures City(Text("Los Angeles")) == Text("Los Angeles")
  {
    assert Lower("la paz") == "la paz";
    assert Title("la paz") == "La Paz";
    assert Lower("Los Angeles") == "los angeles";
    assert Title("los angeles") == "Los Angeles";
  }
}
