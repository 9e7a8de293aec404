/** `toWords` of the payslip page: an amount spelled in the Indian numbering
    system (crore, lakh, thousand, hundred) with an optional paise clause.
    Money is taken as a natural number of paise.

    `Spell` is the recursive `numToWordsRecursive` on strings, as written.
    Its partner is a reader: `WordsOf` gives the same spelling as a sequence
    of word tokens, `Render` joins them with single spaces, and `Value`
    reads a token sequence back the way a person reads Indian number words.
    `SpellRendersWords` and `ValueOfWords` together say that the spelled
    words denote the number. */
module AmountWords {
  import opened JsText

  const Ones: seq<string> := ["", "one", "two", "three", "four", "five", "six", "seven", "eight", "nine", "ten",
                              "eleven", "twelve", "thirteen", "fourteen", "fifteen", "sixteen", "seventeen",
                              "eighteen", "nineteen"]
  const Tens: seq<string> := ["", "", "twenty", "thirty", "forty", "fifty", "sixty", "seventy", "eighty", "ninety"]

  const Crore: nat := 10_000_000
  const Lakh: nat := 100_000
  const Thousand: nat := 1_000
  const Hundred: nat := 100

  /** Amounts above 999,999,999 rupees, in paise. */
  const Limit: nat := 99_999_999_900

  // ------------------------------------------------------------ spelling

  /** The words for `0 < n < 100`: table `a` below twenty, otherwise the
      tens word from table `b` with `-unit` when the unit is nonzero. */
  function BelowHundred(n: nat): string
    requires n < 100
  {
    if n < 20 then Ones[n]
    else Tens[n / 10] + (if n % 10 > 0 then "-" + Ones[n % 10] else "")
  }

  /** The string built so far and the part of the number still to spell. */
  datatype Partial = Partial(str: string, rest: nat)

  /** One scale step of `numToWordsRecursive`: when `rest` holds at least
      one `size`, spell the count, append the scale word and keep the
      remainder. */
  function AddScale(p: Partial, size: nat, word: string): (q: Partial)
    requires IsScale(size)
    ensures q.rest == p.rest % size && q.rest <= p.rest
    ensures p.rest / size == 0 ==> q == p
    decreases p.rest, 0
  {
    var count := p.rest / size;
    DivisionFacts(p.rest, size);
    if count > 0 then
      Partial(p.str + Spell(count) + " " + word + " ", p.rest % size)
    else p
  }

  /** The divisors `numToWordsRecursive` uses. */
  predicate IsScale(size: nat) {
    size == Crore || size == Lakh || size == Thousand || size == Hundred
  }

  /** What the scale steps rely on about division by a scale. */
  lemma DivisionFacts(a: nat, size: nat)
    requires IsScale(size)
    ensures a % size < size && a % size <= a
    ensures a / size > 0 ==> a / size < a
    ensures a / size == 0 ==> a % size == a
  {
    if size == Crore {
      assert a == a / Crore * Crore + a % Crore;
    } else if size == Lakh {
      assert a == a / Lakh * Lakh + a % Lakh;
    } else if size == Thousand {
      assert a == a / Thousand * Thousand + a % Thousand;
    } else {
      assert a == a / Hundred * Hundred + a % Hundred;
    }
  }

  /** The last step: the words for what is left below one hundred, after a
      space when the string does not already end in one. */
  function AddUnits(p: Partial): string
    requires p.rest < 100
  {
    if p.rest > 0 then
      (if p.str != "" && p.str[|p.str| - 1] != ' ' then p.str + " " else p.str) + BelowHundred(p.rest)
    else p.str
  }

  /** `numToWordsRecursive`. */
  function Spell(n: nat): string
    decreases n, 1
  {
    if n == 0 then ""
    else
      var p1 := AddScale(Partial("", n), Crore, "crore");
      var p2 := AddScale(p1, Lakh, "lakh");
      var p3 := AddScale(p2, Thousand, "thousand");
      var p4 := AddScale(p3, Hundred, "hundred");
      Trim(AddUnits(p4))
  }

  /** `toWords(num)` for an amount of `amount` paise; `None` is a null or
      non-numeric input. */
  function ToWords(amount: Option<nat>): (r: string)
    ensures amount.None? || amount == Some(0) ==> r == "Zero"
    ensures r == "Number too large" <==> amount.Some? && amount.value > Limit
    ensures amount.Some? && 0 < amount.value <= Limit ==> |r| > 5 && r[|r| - 5..] == " only"
  {
    match amount
    case None => "Zero"
    case Some(a) =>
      if a > Limit then "Number too large"
      else if a == 0 then "Zero"
      else
        var phrase := Phrase(Spell(a / 100), a % 100);
        EndsInOnly(phrase);
        CapitalizeFirst(phrase)
  }

  /** The rupee words (`Zero` when empty), the paise clause when there are
      paise, and `only`. */
  function Phrase(rupees: string, paise: nat): (p: string)
    ensures |p| > 5 && p[|p| - 5..] == " only"
  {
    var words := if rupees == "" then "Zero" else rupees;
    var withPaise := if paise > 0 then words + " and " + Spell(paise) + " paise" else words;
    var p := withPaise + " only";
    assert p[|p| - 5..] == " only";
    p
  }

  lemma EndsInOnly(p: string)
    requires |p| > 5 && p[|p| - 5..] == " only"
    ensures |CapitalizeFirst(p)| > 5 && CapitalizeFirst(p)[|p| - 5..] == " only"
    ensures CapitalizeFirst(p) != "Number too large"
  {
    var r := CapitalizeFirst(p);
    assert r[|p| - 5..] == r[1..][|p| - 6..];
  }

  // -------------------------------------------------------- word tokens

  datatype Word = Units(k: nat) | HundredWord | ThousandWord | LakhWord | CroreWord

  predicate WellFormed(ws: seq<Word>) {
    forall i :: 0 <= i < |ws| ==> (ws[i].Units? ==> 0 < ws[i].k < 100)
  }

  function Text(w: Word): string
    requires w.Units? ==> 0 < w.k < 100
  {
    match w
    case Units(k) => BelowHundred(k)
    case HundredWord => "hundred"
    case ThousandWord => "thousand"
    case LakhWord => "lakh"
    case CroreWord => "crore"
  }

  /** The words joined by single spaces. */
  function Render(ws: seq<Word>): string
    requires WellFormed(ws)
  {
    if |ws| == 0 then ""
    else if |ws| == 1 then Text(ws[0])
    else Text(ws[0]) + " " + Render(ws[1..])
  }

  /** A scale group: the count's words followed by the scale word, or
      nothing when the count is zero. */
  function Group(count: nat, scale: Word, countWords: seq<Word>): seq<Word> {
    if count > 0 then countWords + [scale] else []
  }

  function UnitsGroup(k: nat): seq<Word> {
    if k > 0 then [Units(k)] else []
  }

  /** The words of the part below one crore. */
  function LowWords(m: nat): (ws: seq<Word>)
    requires m < Crore
    ensures WellFormed(ws)
    ensures |ws| == 0 <==> m == 0
  {
    Decompose(m);
    Group(m / Lakh, LakhWord, UnitsGroup(m / Lakh))
    + Group(m % Lakh / Thousand, ThousandWord, UnitsGroup(m % Lakh / Thousand))
    + Group(m % Thousand / Hundred, HundredWord, UnitsGroup(m % Thousand / Hundred))
    + UnitsGroup(m % Hundred)
  }

  /** The place-value decomposition of a number below one crore. */
  lemma Decompose(m: nat)
    requires m < Crore
    ensures m / Lakh < 100 && m % Lakh / Thousand < 100 && m % Thousand / Hundred < 10 && m % Hundred < 100
    ensures m == m / Lakh * Lakh + m % Lakh / Thousand * Thousand + m % Thousand / Hundred * Hundred + m % Hundred
  {
    var l, r1 := m / Lakh, m % Lakh;
    assert m == l * Lakh + r1;
    var th, r2 := r1 / Thousand, r1 % Thousand;
    assert r1 == th * Thousand + r2;
    assert m == (l * 100 + th) * Thousand + r2;
    assert m % Thousand == r2;
    var h, u := r2 / Hundred, r2 % Hundred;
    assert r2 == h * Hundred + u;
    assert m == ((l * 100 + th) * 10 + h) * Hundred + u;
    assert m % Hundred == u;
  }

  /** The spelling of `n` as word tokens. */
  function WordsOf(n: nat): (ws: seq<Word>)
    ensures WellFormed(ws)
    ensures |ws| == 0 <==> n == 0
    decreases n
  {
    if n / Crore > 0 then WordsOf(n / Crore) + [CroreWord] + LowWords(n % Crore)
    else LowWords(n)
  }

  // ------------------------------------------------------------- reader

  /** Reading state: the amount completed so far and the group in progress. */
  datatype Reading = Reading(total: nat, current: nat)

  function Step(r: Reading, w: Word): Reading {
    match w
    case Units(k) => Reading(r.total, r.current + k)
    case HundredWord => Reading(r.total, r.current * Hundred)
    case ThousandWord => Reading(r.total + r.current * Thousand, 0)
    case LakhWord => Reading(r.total + r.current * Lakh, 0)
    case CroreWord => Reading((r.total + r.current) * Crore, 0)
  }

  function Read(r: Reading, ws: seq<Word>): Reading
    decreases |ws|
  {
    if |ws| == 0 then r else Read(Step(r, ws[0]), ws[1..])
  }

  /** The number a sequence of words denotes. */
  function Value(ws: seq<Word>): nat {
    var r := Read(Reading(0, 0), ws);
    r.total + r.current
  }

  // ------------------------------------------------------------- lemmas

  lemma {:induction false} ReadAppend(r: Reading, a: seq<Word>, b: seq<Word>)
    ensures Read(r, a + b) == Read(Read(r, a), b)
    decreases |a|
  {
    if |a| > 0 {
      assert (a + b)[1..] == a[1..] + b;
      ReadAppend(Step(r, a[0]), a[1..], b);
    } else {
      assert a + b == b;
    }
  }

  /** A lakh or thousand group adds its count times the scale. */
  lemma ReadScaleGroup(t: nat, k: nat, scale: Word, size: nat)
    requires (scale == LakhWord && size == Lakh) || (scale == ThousandWord && size == Thousand)
    ensures Read(Reading(t, 0), Group(k, scale, UnitsGroup(k))) == Reading(t + k * size, 0)
  {
    if k > 0 {
      var ws := [Units(k), scale];
      assert Group(k, scale, UnitsGroup(k)) == ws;
      assert ws[1..] == [scale];
      assert Read(Reading(t, 0), ws) == Read(Reading(t, k), [scale]);
      assert Read(Reading(t, k), [scale]) == Read(Step(Reading(t, k), scale), []);
    }
  }

  /** A hundred group leaves its count times one hundred in progress. */
  lemma ReadHundredGroup(t: nat, h: nat)
    ensures Read(Reading(t, 0), Group(h, HundredWord, UnitsGroup(h))) == Reading(t, h * Hundred)
  {
    if h > 0 {
      var ws := [Units(h), HundredWord];
      assert Group(h, HundredWord, UnitsGroup(h)) == ws;
      assert ws[1..] == [HundredWord];
      assert Read(Reading(t, 0), ws) == Read(Reading(t, h), [HundredWord]);
      assert Read(Reading(t, h), [HundredWord]) == Read(Step(Reading(t, h), HundredWord), []);
    }
  }

  lemma ReadUnitsGroup(t: nat, c: nat, u: nat)
    ensures Read(Reading(t, c), UnitsGroup(u)) == Reading(t, c + u)
  {
    if u > 0 {
      assert UnitsGroup(u)[1..] == [];
    }
  }

  /** Reading the words below one crore adds their number to the total. */
  lemma LowValue(t: nat, m: nat)
    requires m < Crore
    ensures var r := Read(Reading(t, 0), LowWords(m)); r.total + r.current == t + m
  {
    Decompose(m);
    var l := m / Lakh;
    var th := m % Lakh / Thousand;
    var h := m % Thousand / Hundred;
    var u := m % Hundred;
    var gl := Group(l, LakhWord, UnitsGroup(l));
    var gt := Group(th, ThousandWord, UnitsGroup(th));
    var gh := Group(h, HundredWord, UnitsGroup(h));
    var gu := UnitsGroup(u);
    assert LowWords(m) == gl + gt + gh + gu;
    ReadAppend(Reading(t, 0), gl + gt + gh, gu);
    ReadAppend(Reading(t, 0), gl + gt, gh);
    ReadAppend(Reading(t, 0), gl, gt);
    ReadScaleGroup(t, l, LakhWord, Lakh);
    ReadScaleGroup(t + l * Lakh, th, ThousandWord, Thousand);
    ReadHundredGroup(t + l * Lakh + th * Thousand, h);
    ReadUnitsGroup(t + l * Lakh + th * Thousand, h * Hundred, u);
  }

  /** Reading the words of `n` gives back `n`. */
  lemma {:induction false} ValueOfWords(n: nat)
    ensures Value(WordsOf(n)) == n
    decreases n
  {
    if n / Crore > 0 {
      var c := n / Crore;
      ValueOfWords(c);
      var r0 := Read(Reading(0, 0), WordsOf(c));
      ReadAppend(Reading(0, 0), WordsOf(c) + [CroreWord], LowWords(n % Crore));
      ReadAppend(Reading(0, 0), WordsOf(c), [CroreWord]);
      assert Read(Reading(0, 0), WordsOf(c) + [CroreWord]) == Reading(c * Crore, 0);
      LowValue(c * Crore, n % Crore);
    } else {
      LowValue(0, n);
    }
  }

  // ------------------------------------------------ spelling = rendering

  /** No character of `s` is white space. */
  predicate NoSpace(s: string) {
    forall i :: 0 <= i < |s| ==> !IsSpace(s[i])
  }

  lemma TablesHaveNoSpace()
    ensures forall i :: 1 <= i < 20 ==> |Ones[i]| > 0 && NoSpace(Ones[i])
    ensures forall i :: 2 <= i < 10 ==> |Tens[i]| > 0 && NoSpace(Tens[i])
  {
  }

  lemma TextNoSpace(w: Word)
    requires w.Units? ==> 0 < w.k < 100
    ensures |Text(w)| > 0 && NoSpace(Text(w))
  {
    TablesHaveNoSpace();
  }

  /** A rendering that starts or ends at a word boundary has no space at
      either end. */
  lemma {:induction false} RenderTidy(ws: seq<Word>)
    requires WellFormed(ws) && |ws| > 0
    ensures |Render(ws)| > 0 && Tidy(Render(ws))
    ensures !IsSpace(Render(ws)[0]) && !IsSpace(Render(ws)[|Render(ws)| - 1])
    decreases |ws|
  {
    TextNoSpace(ws[0]);
    if |ws| > 1 {
      RenderTidy(ws[1..]);
    }
  }

  /** Rendering a concatenation puts one space between the halves. */
  lemma {:induction false} RenderAppend(a: seq<Word>, b: seq<Word>)
    requires WellFormed(a) && WellFormed(b) && |a| > 0 && |b| > 0
    ensures WellFormed(a + b)
    ensures Render(a + b) == Render(a) + " " + Render(b)
    decreases |a|
  {
    if |a| > 1 {
      assert (a + b)[1..] == a[1..] + b;
      RenderAppend(a[1..], b);
    } else {
      assert (a + b)[1..] == b;
    }
  }

  /** The string built before the units: empty, or the rendered words
      followed by one space. */
  function Pending(ws: seq<Word>): string
    requires WellFormed(ws)
  {
    if |ws| == 0 then "" else Render(ws) + " "
  }

  lemma {:induction false} WellFormedAppend(a: seq<Word>, b: seq<Word>)
    requires WellFormed(a) && WellFormed(b)
    ensures WellFormed(a + b)
  {
    forall i | 0 <= i < |a + b|
      ensures (a + b)[i].Units? ==> 0 < (a + b)[i].k < 100
    {
      if i < |a| {
        assert (a + b)[i] == a[i];
      } else {
        assert (a + b)[i] == b[i - |a|];
      }
    }
  }

  lemma {:induction false} ExtendPending(ws: seq<Word>, g: seq<Word>)
    requires WellFormed(ws) && WellFormed(g) && |g| > 0
    ensures WellFormed(ws + g)
    ensures Pending(ws) + Render(g) + " " == Pending(ws + g)
  {
    WellFormedAppend(ws, g);
    if |ws| > 0 {
      RenderAppend(ws, g);
      calc {
        Pending(ws) + Render(g) + " ";
        Render(ws) + " " + Render(g) + " ";
        Render(ws + g) + " ";
      }
    } else {
      assert ws + g == g;
    }
  }

  /** Below one hundred the words are a single token. */
  lemma SmallWords(k: nat)
    requires 0 < k < 100
    ensures WordsOf(k) == [Units(k)]
  {
    assert k / Lakh == 0 && k % Lakh / Thousand == 0 && k % Thousand / Hundred == 0 && k % Hundred == k;
  }

  /** The remainders `numToWordsRecursive` carries forward. */
  lemma Remainders(m: nat)
    requires m < Crore
    ensures m % Lakh % Thousand == m % Thousand
    ensures m % Thousand % Hundred == m % Hundred
    ensures m / Lakh == 0 ==> m % Lakh == m
    ensures m % Lakh / Thousand == 0 ==> m % Lakh == m % Thousand
    ensures m % Thousand / Hundred == 0 ==> m % Thousand == m % Hundred
  {
    Decompose(m);
  }

  /** One scale step appends the count's words and the scale word to the
      pending string. */
  lemma ScaleStep(p: Partial, ws: seq<Word>, size: nat, scale: Word, countWords: seq<Word>)
    requires IsScale(size) && WellFormed(ws) && p.str == Pending(ws)
    requires !scale.Units? && WellFormed(countWords)
    requires p.rest / size > 0 ==> |countWords| > 0 && Spell(p.rest / size) == Render(countWords)
    ensures WellFormed(ws + Group(p.rest / size, scale, countWords))
    ensures AddScale(p, size, Text(scale)).str == Pending(ws + Group(p.rest / size, scale, countWords))
  {
    var count := p.rest / size;
    if count > 0 {
      var g := countWords + [scale];
      assert AddScale(p, size, Text(scale)).str == Pending(ws) + Render(countWords) + " " + Text(scale) + " ";
      GroupAfterPending(ws, countWords, scale);
    } else {
      assert ws + [] == ws;
    }
  }

  lemma GroupAfterPending(ws: seq<Word>, countWords: seq<Word>, scale: Word)
    requires WellFormed(ws) && WellFormed(countWords) && |countWords| > 0 && !scale.Units?
    ensures WellFormed(ws + (countWords + [scale]))
    ensures Pending(ws) + Render(countWords) + " " + Text(scale) + " " == Pending(ws + (countWords + [scale]))
  {
    var g := countWords + [scale];
    WellFormedAppend(countWords, [scale]);
    RenderAppend(countWords, [scale]);
    var a, b, t := Pending(ws), Render(countWords), Text(scale);
    assert Render(g) == b + " " + t;
    ExtendPending(ws, g);
    SpacedAssoc(a, b, t);
  }

  lemma SpacedAssoc(a: string, b: string, t: string)
    ensures a + (b + " " + t) + " " == a + b + " " + t + " "
  {
  }

  /** The units step and the final trim give the rendering of all words. */
  lemma UnitsStep(p: Partial, ws: seq<Word>)
    requires p.rest < 100 && WellFormed(ws) && p.str == Pending(ws)
    requires |ws| > 0 || p.rest > 0
    ensures WellFormed(ws + UnitsGroup(p.rest))
    ensures Trim(AddUnits(p)) == Render(ws + UnitsGroup(p.rest))
  {
    if p.rest > 0 {
      UnitsNeedNoSpace(p, ws);
      UnitsAfterPending(ws, p.rest);
    } else {
      NothingAfterPending(ws);
    }
  }

  /** After pending words the units follow directly: the pending string
      already ends in a space. */
  lemma UnitsNeedNoSpace(p: Partial, ws: seq<Word>)
    requires 0 < p.rest < 100 && WellFormed(ws) && p.str == Pending(ws)
    ensures AddUnits(p) == Pending(ws) + BelowHundred(p.rest)
  {
    if |ws| > 0 {
      PendingEndsInSpace(ws);
    }
  }

  lemma PendingEndsInSpace(ws: seq<Word>)
    requires WellFormed(ws) && |ws| > 0
    ensures Pending(ws) != "" && Pending(ws)[|Pending(ws)| - 1] == ' '
  {
  }

  lemma NothingAfterPending(ws: seq<Word>)
    requires WellFormed(ws) && |ws| > 0
    ensures WellFormed(ws + UnitsGroup(0))
    ensures Trim(Pending(ws)) == Render(ws + UnitsGroup(0))
  {
    assert ws + UnitsGroup(0) == ws;
    RenderTidy(ws);
    TrimTrailingSpace(Render(ws));
  }

  lemma UnitsAfterPending(ws: seq<Word>, k: nat)
    requires WellFormed(ws) && 0 < k < 100
    ensures WellFormed(ws + UnitsGroup(k))
    ensures Trim(Pending(ws) + BelowHundred(k)) == Render(ws + UnitsGroup(k))
  {
    var u := [Units(k)];
    assert Render(u) == BelowHundred(k);
    WellFormedAppend(ws, u);
    if |ws| > 0 {
      RenderAppend(ws, u);
    } else {
      assert ws + u == u;
    }
    RenderTidy(ws + u);
    TrimTidy(Render(ws + u));
  }

  /** Below one hundred, `numToWordsRecursive` is the table lookup. */
  lemma SpellSmall(k: nat)
    requires 0 < k < 100
    ensures Spell(k) == Render([Units(k)])
  {
    var p := Partial("", k);
    assert AddScale(p, Crore, "crore") == p;
    assert AddScale(p, Lakh, "lakh") == p;
    assert AddScale(p, Thousand, "thousand") == p;
    assert AddScale(p, Hundred, "hundred") == p;
    TextNoSpace(Units(k));
    TrimTidy(BelowHundred(k));
  }

  lemma Regroup(ws: seq<Word>, a: seq<Word>, b: seq<Word>, c: seq<Word>, d: seq<Word>)
    ensures ws + a + b + c + d == ws + (a + b + c + d)
  {
  }

  /** The lakh, thousand, hundred and units steps spell the part below
      one crore after whatever the pending string already holds. */
  lemma LowStages(p: Partial, ws: seq<Word>)
    requires p.rest < Crore && WellFormed(ws) && p.str == Pending(ws)
    requires |ws| > 0 || p.rest > 0
    ensures WellFormed(ws + LowWords(p.rest))
    ensures var p4 := AddScale(AddScale(AddScale(p, Lakh, "lakh"), Thousand, "thousand"), Hundred, "hundred");
            Trim(AddUnits(p4)) == Render(ws + LowWords(p.rest))
  {
    var m := p.rest;
    Decompose(m);
    Remainders(m);
    var p2 := AddScale(p, Lakh, "lakh");
    var p3 := AddScale(p2, Thousand, "thousand");
    var p4 := AddScale(p3, Hundred, "hundred");
    var gl := SmallScaleStep(p, ws, Lakh, LakhWord);
    var w2 := ws + gl;
    var gt := SmallScaleStep(p2, w2, Thousand, ThousandWord);
    var w3 := w2 + gt;
    var gh := SmallScaleStep(p3, w3, Hundred, HundredWord);
    var w4 := w3 + gh;
    var gu := UnitsGroup(m % Hundred);
    assert LowWords(m) == gl + gt + gh + gu;
    Regroup(ws, gl, gt, gh, gu);
    UnitsStep(p4, w4);
  }

  /** A scale step whose count is below one hundred adds the count's token
      and the scale word. */
  lemma SmallScaleStep(p: Partial, ws: seq<Word>, size: nat, scale: Word) returns (g: seq<Word>)
    requires IsScale(size) && p.rest / size < 100 && WellFormed(ws) && p.str == Pending(ws)
    requires !scale.Units?
    ensures g == Group(p.rest / size, scale, UnitsGroup(p.rest / size))
    ensures WellFormed(ws + g) && AddScale(p, size, Text(scale)).str == Pending(ws + g)
    ensures |ws + g| > 0 <==> |ws| > 0 || p.rest / size > 0
  {
    var k := p.rest / size;
    if k > 0 {
      SmallWords(k);
      SpellSmall(k);
    }
    ScaleStep(p, ws, size, scale, UnitsGroup(k));
    g := Group(k, scale, UnitsGroup(k));
  }

  /** `numToWordsRecursive(n)` is the rendering of the words of `n`. */
  lemma {:induction false} SpellRendersWords(n: nat)
    ensures Spell(n) == Render(WordsOf(n))
    decreases n
  {
    if n > 0 {
      var c := n / Crore;
      var p0 := Partial("", n);
      var p1 := AddScale(p0, Crore, "crore");
      var w1: seq<Word> := if c > 0 then WordsOf(c) + [CroreWord] else [];
      if c > 0 {
        SpellRendersWords(c);
      }
      ScaleStep(p0, [], Crore, CroreWord, WordsOf(c));
      var g := Group(c, CroreWord, WordsOf(c));
      assert [] + g == g;
      if c > 0 {
        assert g == w1;
      } else {
        assert g == w1;
      }
      assert p1.rest == n % Crore;
      LowStages(p1, w1);
      assert WordsOf(n) == w1 + LowWords(n % Crore);
    }
  }

  /** Only zero spells as the empty string. */
  lemma SpellEmpty(n: nat)
    ensures Spell(n) == "" <==> n == 0
  {
    SpellRendersWords(n);
    if n > 0 {
      RenderTidy(WordsOf(n));
    }
  }

  /** The amount line: the rupee words (or "Zero"), the paise words when
      there are paise, and "only", first letter capitalised; the two word
      sequences read back as the rupees and the paise of the amount. */
  lemma ToWordsSpellsAmount(a: nat)
    requires 0 < a <= Limit
    ensures var rupees, paise := WordsOf(a / 100), WordsOf(a % 100);
            && Value(rupees) * 100 + Value(paise) == a
            && (|paise| == 0 <==> a % 100 == 0)
            && var words := if |rupees| == 0 then "Zero" else Render(rupees);
               var withPaise := if |paise| > 0 then words + " and " + Render(paise) + " paise" else words;
               ToWords(Some(a)) == CapitalizeFirst(withPaise + " only")
  {
    ValueOfWords(a / 100);
    ValueOfWords(a % 100);
    ToWordsText(a / 100, a % 100, a);
  }

  lemma ToWordsText(r: nat, p: nat, a: nat)
    requires 0 < a <= Limit && r == a / 100 && p == a % 100
    ensures var rupees, paise := WordsOf(r), WordsOf(p);
            var words := if |rupees| == 0 then "Zero" else Render(rupees);
            var withPaise := if |paise| > 0 then words + " and " + Render(paise) + " paise" else words;
            ToWords(Some(a)) == CapitalizeFirst(withPaise + " only")
  {
    var sr, sp := Spell(r), Spell(p);
    var words := if sr == "" then "Zero" else sr;
    var withPaise := if p > 0 then words + " and " + sp + " paise" else words;
    assert ToWords(Some(a)) == CapitalizeFirst(Phrase(sr, p));
    assert Phrase(sr, p) == withPaise + " only";
    SpellRendersWords(r);
    SpellRendersWords(p);
    SpellEmpty(r);
  }

}
