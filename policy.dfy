/** The password policy: which candidate passwords a `PasswordRequirements` record admits
    (`verifyPassword`) and the fixed sentence that describes the requirements
    (`passwordError`). */
module PasswordPolicy {
  import opened Common
  import opened GoStrings
  import opened Utf8

  const DefaultMinLength: nat := 8
  const DefaultMaxLength: nat := 32

  /** Every bound is optional; the two length bounds fall back to their defaults. */
  datatype PasswordRequirements = PasswordRequirements(
    minLength: Option<nat>,
    maxLength: Option<nat>,
    minLowers: Option<nat>,
    minUppers: Option<nat>,
    minNumbers: Option<nat>,
    minSpecials: Option<nat>)
  {
    function MinLength(): nat
    {
      if minLength.Some? then minLength.value else DefaultMinLength
    }

    function MaxLength(): nat
    {
      if maxLength.Some? then maxLength.value else DefaultMaxLength
    }

    /** No character-class bound is configured. */
    predicate LengthOnly()
    {
      minLowers.None? && minUppers.None? && minNumbers.None? && minSpecials.None?
    }
  }

  /** The requirements the demo application configures: one upper-case letter, one number
      and one special character, default lengths. */
  const DemoRequirements := PasswordRequirements(None, None, None, Some(1), Some(1), Some(1))

  /** Go's `unicode.IsNumber`, `IsUpper`, `IsPunct`, `IsSymbol` and `IsLetter`. The Unicode
      tables behind them are a parameter of the model. */
  datatype UnicodeTables = UnicodeTables(
    isNumber: Rune -> bool,
    isUpper: Rune -> bool,
    isPunct: Rune -> bool,
    isSymbol: Rune -> bool,
    isLetter: Rune -> bool)

  /** The tables agree with Go's on the ASCII range. */
  ghost predicate AgreesOnAscii(t: UnicodeTables)
  {
    forall c: Rune :: 0 <= c < 0x80 ==>
      && (t.isNumber(c) <==> 0x30 <= c <= 0x39)
      && (t.isUpper(c) <==> 0x41 <= c <= 0x5A)
      && (t.isLetter(c) <==> 0x41 <= c <= 0x5A || 0x61 <= c <= 0x7A)
      && (t.isPunct(c) || t.isSymbol(c) <==>
            0x21 <= c <= 0x2F || 0x3A <= c <= 0x40 || 0x5B <= c <= 0x60 || 0x7B <= c <= 0x7E)
  }

  /** The class a rune is counted in; a rune in several tables goes to the first of
      number, upper case, punctuation or symbol, letter. */
  datatype RuneClass = Number | Upper | Special | Lower | Unclassified

  function Classify(t: UnicodeTables, c: Rune): RuneClass
  {
    if t.isNumber(c) then Number
    else if t.isUpper(c) then Upper
    else if t.isPunct(c) || t.isSymbol(c) then Special
    else if t.isLetter(c) then Lower
    else Unclassified
  }

  /** How many of the runes `rs` the classification loop counts in class `k`. */
  function Count(t: UnicodeTables, rs: seq<Rune>, k: RuneClass): nat
  {
    if rs == [] then 0 else (if Classify(t, rs[0]) == k then 1 else 0) + Count(t, rs[1..], k)
  }

  /** Each rune is counted in exactly one class, the runes in no class being skipped, not
      rejected: the four counters and the skipped runes add up to the rune count. */
  lemma {:induction false} EachRuneCountedOnce(t: UnicodeTables, rs: seq<Rune>)
    ensures Count(t, rs, Lower) + Count(t, rs, Upper) + Count(t, rs, Number) + Count(t, rs, Special)
            + Count(t, rs, Unclassified) == |rs|
  {
    if rs != [] {
      EachRuneCountedOnce(t, rs[1..]);
    }
  }

  /** No rune is lost: the class of every rune has a count of at least one. */
  lemma {:induction false} EveryRuneCounted(t: UnicodeTables, rs: seq<Rune>, i: nat)
    requires i < |rs|
    ensures Count(t, rs, Classify(t, rs[i])) >= 1
  {
    if i > 0 {
      EveryRuneCounted(t, rs[1..], i - 1);
      assert rs[1..][i - 1] == rs[i];
    }
  }

  /** The count in class `k` of the runes a `for range` loop visits from byte offset `i`
      of `s` on. */
  function CountFrom(t: UnicodeTables, s: Bytes, i: nat, k: RuneClass): nat
    requires i <= |s|
    decreases |s| - i
  {
    if i == |s| then 0
    else
      var (c, width) := DecodeRune(s[i..]);
      (if Classify(t, c) == k then 1 else 0) + CountFrom(t, s, i + width, k)
  }

  /** Counting from an offset is counting the runes of the rest of the string. */
  lemma {:induction false} CountFromRunes(t: UnicodeTables, s: Bytes, i: nat, k: RuneClass)
    requires i <= |s|
    ensures CountFrom(t, s, i, k) == Count(t, Runes(s[i..]), k)
    decreases |s| - i
  {
    if i < |s| {
      var d := DecodeRune(s[i..]);
      CountFromRunes(t, s, i + d.1, k);
      assert s[i..][d.1..] == s[i + d.1..];
      assert Runes(s[i..])[1..] == Runes(s[i + d.1..]);
    }
  }

  /** An absent bound is met by any count. */
  predicate AtLeast(bound: Option<nat>, count: nat)
  {
    bound.None? || count >= bound.value
  }

  /** The candidate `s` satisfies the requirements: its BYTE length lies within the length
      bounds, it holds no ASCII space, and each configured class bound is met by the
      counters of its runes. */
  predicate Acceptable(req: PasswordRequirements, t: UnicodeTables, s: Bytes)
  {
    && req.MinLength() <= |s| <= req.MaxLength()
    && Space !in s
    && var rs := Runes(s);
       && AtLeast(req.minLowers, Count(t, rs, Lower))
       && AtLeast(req.minUppers, Count(t, rs, Upper))
       && AtLeast(req.minNumbers, Count(t, rs, Number))
       && AtLeast(req.minSpecials, Count(t, rs, Special))
  }

  /** The classification pass of `verifyPassword`: one walk over the runes of `s`, each
      rune adding to at most one counter. */
  method CountClasses(t: UnicodeTables, s: Bytes) returns (lowers: nat, uppers: nat, numbers: nat, specials: nat)
    ensures lowers == Count(t, Runes(s), Lower) && uppers == Count(t, Runes(s), Upper)
    ensures numbers == Count(t, Runes(s), Number) && specials == Count(t, Runes(s), Special)
  {
    lowers, uppers, numbers, specials := 0, 0, 0, 0;
    var i: nat := 0;
    while i < |s|
      invariant i <= |s|
      invariant lowers + CountFrom(t, s, i, Lower) == CountFrom(t, s, 0, Lower)
      invariant uppers + CountFrom(t, s, i, Upper) == CountFrom(t, s, 0, Upper)
      invariant numbers + CountFrom(t, s, i, Number) == CountFrom(t, s, 0, Number)
      invariant specials + CountFrom(t, s, i, Special) == CountFrom(t, s, 0, Special)
      decreases |s| - i
    {
      var (c, width) := DecodeRune(s[i..]);
      match Classify(t, c) {
        case Number => numbers := numbers + 1;
        case Upper => uppers := uppers + 1;
        case Special => specials := specials + 1;
        case Lower => lowers := lowers + 1;
        case Unclassified =>
      }
      i := i + width;
    }
    assert s[0..] == s;
    CountFromRunes(t, s, 0, Lower);
    CountFromRunes(t, s, 0, Upper);
    CountFromRunes(t, s, 0, Number);
    CountFromRunes(t, s, 0, Special);
  }

  /** `verifyPassword`: the length checks, the space check, one classification pass over
      the runes, then the configured class bounds. */
  method VerifyPassword(req: PasswordRequirements, t: UnicodeTables, s: Bytes) returns (ok: bool)
    ensures ok == Acceptable(req, t, s)
  {
    var minLength := DefaultMinLength;
    if req.minLength.Some? {
      minLength := req.minLength.value;
    }
    if |s| < minLength {
      return false;
    }
    var maxLength := DefaultMaxLength;
    if req.maxLength.Some? {
      maxLength := req.maxLength.value;
    }
    if |s| > maxLength {
      return false;
    }
    if Space in s {
      return false;
    }

    var lowers, uppers, numbers, specials := CountClasses(t, s);

    if req.minLowers.Some? && lowers < req.minLowers.value {
      return false;
    }
    if req.minUppers.Some? && uppers < req.minUppers.value {
      return false;
    }
    if req.minNumbers.Some? && numbers < req.minNumbers.value {
      return false;
    }
    if req.minSpecials.Some? && specials < req.minSpecials.value {
      return false;
    }
    return true;
  }

  /** The class Go gives an ASCII character. */
  function AsciiClass(c: Rune): RuneClass
  {
    if 0x30 <= c <= 0x39 then Number
    else if 0x41 <= c <= 0x5A then Upper
    else if 0x21 <= c <= 0x2F || 0x3A <= c <= 0x40 || 0x5B <= c <= 0x60 || 0x7B <= c <= 0x7E then Special
    else if 0x61 <= c <= 0x7A then Lower
    else Unclassified
  }

  lemma ClassifyAscii(t: UnicodeTables, c: Rune)
    requires AgreesOnAscii(t) && 0 <= c < 0x80
    ensures Classify(t, c) == AsciiClass(c)
  {
  }

  /** The demo requirements are met by any space-free password of 8 to 32 bytes in which
      some rune is upper case, some rune a number and some rune a special character. */
  lemma DemoRequirementsMet(t: UnicodeTables, s: Bytes, upper: nat, number: nat, special: nat)
    requires 8 <= |s| <= 32 && Space !in s
    requires upper < |Runes(s)| && Classify(t, Runes(s)[upper]) == Upper
    requires number < |Runes(s)| && Classify(t, Runes(s)[number]) == Number
    requires special < |Runes(s)| && Classify(t, Runes(s)[special]) == Special
    ensures Acceptable(DemoRequirements, t, s)
  {
    EveryRuneCounted(t, Runes(s), upper);
    EveryRuneCounted(t, Runes(s), number);
    EveryRuneCounted(t, Runes(s), special);
  }

  /** The password "Abc123!@" meets the demo requirements wherever the Unicode tables
      agree with Go's on ASCII. */
  lemma DemoPasswordAccepted(t: UnicodeTables, s: Bytes)
    requires AgreesOnAscii(t)
    requires s == [0x41, 0x62, 0x63, 0x31, 0x32, 0x33, 0x21, 0x40]
    ensures Acceptable(DemoRequirements, t, s)
  {
    RunesOfAscii(s);
    ClassifyAscii(t, Runes(s)[0]);
    ClassifyAscii(t, Runes(s)[3]);
    ClassifyAscii(t, Runes(s)[6]);
    DemoRequirementsMet(t, s, 0, 3, 6);
  }

  /** Four letters 'é', two bytes each, meet the default eight-character minimum although
      they are only four runes: the length bounds count bytes. */
  lemma LengthCountsBytes(t: UnicodeTables, s: Bytes)
    requires s == [0xC3, 0xA9, 0xC3, 0xA9, 0xC3, 0xA9, 0xC3, 0xA9]
    ensures |Runes(s)| == 4 && Acceptable(PasswordRequirements(None, None, None, None, None, None), t, s)
  {
    var e := EncodeRune(0xE9);
    assert e == [0xC3, 0xA9];
    DecodeEncodeRune(0xE9, s[2..]);
    DecodeEncodeRune(0xE9, s[4..]);
    DecodeEncodeRune(0xE9, s[6..]);
    DecodeEncodeRune(0xE9, []);
    assert s == e + s[2..] && s[2..] == e + s[4..] && s[4..] == e + s[6..] && s[6..] == e + [];
    assert s[2..][2..] == s[4..] && s[4..][2..] == s[6..] && s[6..][2..] == [];
    assert Runes(s[6..]) == [0xE9];
    assert Runes(s[4..]) == [0xE9] + Runes(s[6..]);
    assert Runes(s[2..]) == [0xE9] + Runes(s[4..]);
    assert Runes(s) == [0xE9] + Runes(s[2..]);
  }

  // ---------------------------------------------------------------------------
  // The requirements sentence.

  const Preamble := "Password does not fulfill one or more of the following requirements: "

  /** `fmt`'s `%v` of an unsigned number: its decimal digits, without leading zeros. */
  function Decimal(n: nat): (r: string)
    ensures |r| >= 1
    ensures forall i :: 0 <= i < |r| ==> '0' <= r[i] <= '9'
    ensures (r[0] == '0') == (n == 0)
  {
    if n < 10 then ["0123456789"[n]] else Decimal(n / 10) + ["0123456789"[n % 10]]
  }

  /** The number a string of decimal digits denotes. */
  function DecimalValue(s: string): nat
    requires forall i :: 0 <= i < |s| ==> '0' <= s[i] <= '9'
  {
    if s == [] then 0 else DecimalValue(s[..|s| - 1]) * 10 + (s[|s| - 1] as int - '0' as int)
  }

  /** Reading back the rendered number gives the number. */
  lemma {:induction false} DecimalRoundTrip(n: nat)
    ensures DecimalValue(Decimal(n)) == n
  {
    if n >= 10 {
      var r := Decimal(n);
      assert r[..|r| - 1] == Decimal(n / 10);
      DecimalRoundTrip(n / 10);
    }
  }

  function LengthClauses(req: PasswordRequirements): seq<string>
  {
    ["at least " + Decimal(req.MinLength()) + " characters",
     "at most " + Decimal(req.MaxLength()) + " characters"]
  }

  function ClassClause(bound: Option<nat>, what: string): seq<string>
  {
    if bound.Some? then ["at least " + Decimal(bound.value) + " " + what] else []
  }

  /** The clauses of the sentence: the two length clauses always, then one clause per
      configured class bound, in the order lowers, uppers, numbers, specials. */
  function Clauses(req: PasswordRequirements): seq<string>
  {
    LengthClauses(req)
    + ClassClause(req.minLowers, "lower case letter(s)")
    + ClassClause(req.minUppers, "upper case letter(s)")
    + ClassClause(req.minNumbers, "number(s)")
    + ClassClause(req.minSpecials, "special character(s)")
  }

  /** `passwordError`: the fixed sentence; it depends on the requirements only. */
  function PasswordError(req: PasswordRequirements): string
  {
    Preamble + Join(Clauses(req), ", ") + "."
  }

  lemma {:induction false} JoinTwoThenMore<T>(a: seq<T>, b: seq<T>, more: seq<seq<T>>, sep: seq<T>)
    ensures Join([a, b] + more, sep) == a + sep + b + (if more == [] then [] else sep + Join(more, sep))
  {
    assert ([a, b] + more)[1..] == [b] + more;
    if more != [] {
      assert ([b] + more)[1..] == more;
    }
  }

  /** Whatever the requirements, the sentence starts with the preamble and the two length
      clauses (defaults filled in), ends with a full stop, and is exactly that when no class
      bound is configured. */
  lemma PasswordErrorShape(req: PasswordRequirements)
    ensures var lengths := Join(LengthClauses(req), ", ");
            var msg := PasswordError(req);
            && |msg| > |Preamble| + |lengths|
            && msg[..|Preamble| + |lengths|] == Preamble + lengths
            && msg[|msg| - 1] == '.'
            && (req.LengthOnly() <==> msg == Preamble + lengths + ".")
  {
    var cs := Clauses(req);
    var more := cs[2..];
    var lengths := cs[0] + ", " + cs[1];
    assert cs == LengthClauses(req) + more;
    assert Join(LengthClauses(req), ", ") == lengths by {
      JoinTwoThenMore(cs[0], cs[1], [], ", ");
      assert LengthClauses(req) == [cs[0], cs[1]] + [];
    }
    assert cs == [cs[0], cs[1]] + more;
    JoinTwoThenMore(cs[0], cs[1], more, ", ");
    var rest: string := if more == [] then [] else ", " + Join(more, ", ");
    assert Join(cs, ", ") == lengths + rest;
    assert more == [] <==> rest == [];
    SentenceShape(Preamble, lengths, rest);
    assert req.LengthOnly() <==> rest == [];
  }

  /** A sentence made of a fixed head, a body and a full stop starts with the head and the
      body's first part and ends with the full stop; it is exactly head, part and stop only
      when the rest of the body is empty. */
  lemma SentenceShape(head: string, part: string, rest: string)
    ensures var msg := head + (part + rest) + ".";
            && |msg| > |head| + |part|
            && msg[..|head| + |part|] == head + part
            && msg[|msg| - 1] == '.'
            && (rest == [] <==> msg == head + part + ".")
  {
    var msg := head + (part + rest) + ".";
    assert msg == (head + part) + (rest + ".");
    if rest != [] {
      assert |msg| > |head + part + "."|;
    }
  }

  /** With nothing configured the sentence names only the default lengths. */
  lemma PasswordErrorOfDefaults()
    ensures PasswordError(PasswordRequirements(None, None, None, None, None, None))
         == Preamble + "at least 8 characters" + ", " + "at most 32 characters" + "."
  {
    var req := PasswordRequirements(None, None, None, None, None, None);
    DefaultLengthClauses(req);
    assert Clauses(req) == LengthClauses(req);
  }

  /** Left unconfigured, the lengths read 8 and 32. */
  lemma DefaultLengthClauses(req: PasswordRequirements)
    requires req.minLength == None && req.maxLength == None
    ensures LengthClauses(req) == ["at least 8 characters", "at most 32 characters"]
  {
    assert req.MinLength() == 8 && req.MaxLength() == 32;
    var eight := Decimal(8);
    assert eight == "8";
    var thirtyTwo := Decimal(32);
    assert thirtyTwo == "32" by { assert Decimal(3) == "3"; }
    assert "at least " + eight + " characters" == "at least 8 characters";
    assert "at most " + thirtyTwo + " characters" == "at most 32 characters";
  }

  /** A bound of one reads "at least 1 ..."; an absent bound adds no clause. */
  lemma ClassClauseOfOne(what: string)
    ensures ClassClause(Some(1), what) == ["at least 1 " + what]
    ensures ClassClause(None, what) == []
  {
    var one := Decimal(1);
    assert one == "1";
    assert "at least " + one + " " + what == "at least 1 " + what;
  }

  /** The clauses the demo requirements produce. */
  lemma DemoClauses()
    ensures Clauses(DemoRequirements)
         == ["at least 8 characters", "at most 32 characters", "at least 1 " + "upper case letter(s)",
             "at least 1 " + "number(s)", "at least 1 " + "special character(s)"]
  {
    var req := DemoRequirements;
    DefaultLengthClauses(req);
    DemoClassClauses();
  }

  /** The demo bounds yield one clause each for upper case, numbers and specials. */
  lemma DemoClassClauses()
    ensures ClassClause(DemoRequirements.minLowers, "lower case letter(s)") == []
    ensures ClassClause(DemoRequirements.minUppers, "upper case letter(s)") == ["at least 1 " + "upper case letter(s)"]
    ensures ClassClause(DemoRequirements.minNumbers, "number(s)") == ["at least 1 " + "number(s)"]
    ensures ClassClause(DemoRequirements.minSpecials, "special character(s)") == ["at least 1 " + "special character(s)"]
  {
    ClassClauseOfOne("lower case letter(s)");
    ClassClauseOfOne("upper case letter(s)");
    ClassClauseOfOne("number(s)");
    ClassClauseOfOne("special character(s)");
  }

  /** Five parts joined: each separator between two neighbours. */
  lemma JoinFive<T>(c0: seq<T>, c1: seq<T>, c2: seq<T>, c3: seq<T>, c4: seq<T>, sep: seq<T>)
    ensures Join([c0, c1, c2, c3, c4], sep) == c0 + sep + c1 + sep + c2 + sep + c3 + sep + c4
  {
    var cs := [c0, c1, c2, c3, c4];
    assert Join(cs[4..], sep) == c4;
    assert Join(cs[3..], sep) == c3 + sep + c4 by { assert cs[3..][1..] == cs[4..]; }
    assert Join(cs[2..], sep) == c2 + sep + (c3 + sep + c4) by { assert cs[2..][1..] == cs[3..]; }
    assert Join(cs[1..], sep) == c1 + sep + (c2 + sep + (c3 + sep + c4)) by { assert cs[1..][1..] == cs[2..]; }
  }

  /** The sentence the demo application shows. */
  lemma PasswordErrorOfDemo()
    ensures PasswordError(DemoRequirements)
         == Preamble
            + ("at least 8 characters" + ", " + "at most 32 characters"
               + ", " + ("at least 1 " + "upper case letter(s)") + ", " + ("at least 1 " + "number(s)")
               + ", " + ("at least 1 " + "special character(s)"))
            + "."
  {
    DemoClauses();
    JoinFive("at least 8 characters", "at most 32 characters", "at least 1 " + "upper case letter(s)",
             "at least 1 " + "number(s)", "at least 1 " + "special character(s)", ", ");
  }
}
