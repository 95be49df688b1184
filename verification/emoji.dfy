/**
 * The emoji package: the catalog entry, the skin-tone tables, the modifier
 * insertion rule, the re-derivation of a toned catalog from the base one, the
 * cookie and hand selection of the two handlers, and the `dict` template helper.
 */
module Emoji {
  import opened Go

  /** One catalog entry (the `emoji` struct). */
  datatype Entry = Entry(Keywords: seq<string>, Char: string, FitzpatrickScale: bool, Category: string)

  /** The catalog, keyed by emoji name. */
  type Catalog = map<string, Entry>

  /** U+200D ZERO WIDTH JOINER: the modifier is placed in front of every one of them. */
  const Zwj: char := '\U{200D}'

  /** U+270B RAISED HAND, the glyph of the tone picker. */
  const Hand: string := "\U{270B}"

  /** `fitzpatrickScaleModifiers`: skintone key to the Fitzpatrick modifier U+1F3FB .. U+1F3FF. */
  const FitzpatrickScaleModifiers: map<string, string> := map[
    "skin_tone_1" := "\U{1F3FB}",
    "skin_tone_2" := "\U{1F3FC}",
    "skin_tone_3" := "\U{1F3FD}",
    "skin_tone_4" := "\U{1F3FE}",
    "skin_tone_5" := "\U{1F3FF}"
  ]

  /** `skinToneSelections`: the bare hand, then the hand with each modifier in scale order. */
  const SkinToneSelections: seq<string> := [
    "\U{270B}",
    "\U{270B}\U{1F3FB}",
    "\U{270B}\U{1F3FC}",
    "\U{270B}\U{1F3FD}",
    "\U{270B}\U{1F3FE}",
    "\U{270B}\U{1F3FF}"
  ]

  /** The decimal digit character for 0 <= k <= 9. */
  function Digit(k: nat): (c: char)
    requires k <= 9
    ensures '0' <= c <= '9' && c as int - '0' as int == k
  {
    ('0' as int + k) as char
  }

  /** The query key the page sends for scale level k. */
  function ToneKey(k: nat): string
    requires k <= 9
  {
    "skin_tone_" + [Digit(k)]
  }

  // ---------------------------------------------------------------------------
  // Modifier insertion
  // ---------------------------------------------------------------------------

  /** Number of occurrences of c in s. */
  function Occurrences(s: string, c: char): nat
  {
    if s == [] then 0 else (if s[0] == c then 1 else 0) + Occurrences(s[1..], c)
  }

  /**
   * `strings.Replace(s, zwj, modifier+zwj, -1)`: every joiner of s replaced by the
   * modifier followed by that joiner. Each joiner adds exactly |modifier| characters.
   */
  function InsertBeforeJoiners(s: string, modifier: string): (r: string)
    ensures |r| == |s| + Occurrences(s, Zwj) * |modifier|
    ensures Zwj !in s ==> r == s
  {
    if s == [] then []
    else
      var rest := InsertBeforeJoiners(s[1..], modifier);
      if s[0] == Zwj then
        assert (1 + Occurrences(s[1..], Zwj)) * |modifier| == |modifier| + Occurrences(s[1..], Zwj) * |modifier|;
        modifier + [Zwj] + rest
      else [s[0]] + rest
  }

  /**
   * Reads a toned glyph back: every "modifier, joiner" pair becomes the bare joiner,
   * everything else is kept. The inverse of InsertBeforeJoiners (RemoveUndoesInsert).
   */
  function RemoveBeforeJoiners(r: string, modifier: string): (s: string)
    decreases |r|
  {
    if r == [] then []
    else if |modifier| + 1 <= |r| && r[..|modifier| + 1] == modifier + [Zwj] then
      [Zwj] + RemoveBeforeJoiners(r[|modifier| + 1..], modifier)
    else [r[0]] + RemoveBeforeJoiners(r[1..], modifier)
  }

  /** `addModifier`: the glyph an entry shows under the chosen skin-tone modifier. */
  function AddModifier(e: Entry, modifier: string): (r: string)
    ensures modifier == "" || !e.FitzpatrickScale ==> r == e.Char
    ensures modifier != "" && e.FitzpatrickScale && Zwj !in e.Char ==> r == e.Char + modifier
    ensures e.FitzpatrickScale && Zwj in e.Char ==>
              |r| == |e.Char| + Occurrences(e.Char, Zwj) * |modifier|
  {
    if modifier == "" || !e.FitzpatrickScale then e.Char
    else if Zwj in e.Char then InsertBeforeJoiners(e.Char, modifier)
    else e.Char + modifier
  }

  /** No joiner stands within the first |modifier| characters of a toned glyph. */
  lemma {:induction false} NoJoinerBeforeModifierLength(t: string, modifier: string)
    requires Zwj !in modifier
    ensures forall k :: 0 <= k < |modifier| && k < |InsertBeforeJoiners(t, modifier)| ==>
              InsertBeforeJoiners(t, modifier)[k] != Zwj
  {
    if t != [] {
      var rest := InsertBeforeJoiners(t[1..], modifier);
      if t[0] == Zwj {
        assert InsertBeforeJoiners(t, modifier) == modifier + [Zwj] + rest;
      } else {
        assert InsertBeforeJoiners(t, modifier) == [t[0]] + rest;
        NoJoinerBeforeModifierLength(t[1..], modifier);
      }
    }
  }

  /** A toned glyph that starts with a non-joiner does not start with "modifier, joiner". */
  lemma NoModifierJoinerPrefix(x: char, t: string, modifier: string)
    requires x != Zwj && Zwj !in modifier
    ensures var r := [x] + InsertBeforeJoiners(t, modifier);
            !(|modifier| + 1 <= |r| && r[..|modifier| + 1] == modifier + [Zwj])
  {
    var rest := InsertBeforeJoiners(t, modifier);
    var r := [x] + rest;
    if |modifier| + 1 <= |r| && r[..|modifier| + 1] == modifier + [Zwj] {
      assert r[|modifier|] == Zwj;
      assert |modifier| >= 1;
      assert rest[|modifier| - 1] == Zwj;
      NoJoinerBeforeModifierLength(t, modifier);
      assert false;
    }
  }

  /** Deleting the inserted modifiers gives back the original glyph. */
  lemma {:induction false} RemoveUndoesInsert(s: string, modifier: string)
    requires Zwj !in modifier
    ensures RemoveBeforeJoiners(InsertBeforeJoiners(s, modifier), modifier) == s
  {
    if s != [] {
      var rest := InsertBeforeJoiners(s[1..], modifier);
      var r := InsertBeforeJoiners(s, modifier);
      RemoveUndoesInsert(s[1..], modifier);
      if s[0] == Zwj {
        assert r == modifier + [Zwj] + rest;
        assert r[..|modifier| + 1] == modifier + [Zwj];
        assert r[|modifier| + 1..] == rest;
      } else {
        assert r == [s[0]] + rest;
        NoModifierJoinerPrefix(s[0], s[1..], modifier);
        assert r[1..] == rest;
      }
    }
  }

  /** Every joiner of r is immediately preceded by modifier. */
  ghost predicate JoinersPreceded(r: string, modifier: string)
  {
    forall k :: 0 <= k < |r| && r[k] == Zwj ==> |modifier| <= k && r[k - |modifier|..k] == modifier
  }

  lemma JoinersPrecededConcat(p: string, rest: string, modifier: string)
    requires JoinersPreceded(p, modifier) && JoinersPreceded(rest, modifier)
    ensures JoinersPreceded(p + rest, modifier)
  {
    var r := p + rest;
    forall k | 0 <= k < |r| && r[k] == Zwj
      ensures |modifier| <= k && r[k - |modifier|..k] == modifier
    {
      if k < |p| {
        assert p[k] == Zwj;
        assert r[k - |modifier|..k] == p[k - |modifier|..k];
      } else {
        assert rest[k - |p|] == Zwj;
        assert r[k - |modifier|..k] == rest[k - |p| - |modifier|..k - |p|];
      }
    }
  }

  /** Every joiner of a toned glyph is immediately preceded by the modifier. */
  lemma {:induction false} JoinersFollowModifier(s: string, modifier: string)
    requires Zwj !in modifier
    ensures JoinersPreceded(InsertBeforeJoiners(s, modifier), modifier)
  {
    if s != [] {
      var rest := InsertBeforeJoiners(s[1..], modifier);
      JoinersFollowModifier(s[1..], modifier);
      if s[0] == Zwj {
        var p := modifier + [Zwj];
        assert forall i :: 0 <= i < |modifier| ==> p[i] == modifier[i];
        forall k | 0 <= k < |p| && p[k] == Zwj
          ensures |modifier| <= k && p[k - |modifier|..k] == modifier
        {
          assert k == |modifier|;
          assert p[..|modifier|] == modifier;
        }
        JoinersPrecededConcat(p, rest, modifier);
        assert InsertBeforeJoiners(s, modifier) == p + rest;
      } else {
        JoinersPrecededConcat([s[0]], rest, modifier);
        assert InsertBeforeJoiners(s, modifier) == [s[0]] + rest;
      }
    }
  }

  /** Insertion neither adds nor removes joiners (the modifier holds none). */
  lemma {:induction false} InsertKeepsJoinerCount(s: string, modifier: string)
    requires Zwj !in modifier
    ensures Occurrences(InsertBeforeJoiners(s, modifier), Zwj) == Occurrences(s, Zwj)
  {
    if s != [] {
      InsertKeepsJoinerCount(s[1..], modifier);
      var rest := InsertBeforeJoiners(s[1..], modifier);
      if s[0] == Zwj {
        OccurrencesConcat(modifier + [Zwj], rest, Zwj);
        OccurrencesConcat(modifier, [Zwj], Zwj);
        OccurrencesAbsent(modifier, Zwj);
      } else {
        OccurrencesConcat([s[0]], rest, Zwj);
      }
    }
  }

  lemma {:induction false} OccurrencesConcat(a: string, b: string, c: char)
    ensures Occurrences(a + b, c) == Occurrences(a, c) + Occurrences(b, c)
  {
    if a != [] {
      assert (a + b)[0] == a[0];
      assert (a + b)[1..] == a[1..] + b;
      OccurrencesConcat(a[1..], b, c);
    } else {
      assert a + b == b;
    }
  }

  lemma {:induction false} OccurrencesAbsent(a: string, c: char)
    requires c !in a
    ensures Occurrences(a, c) == 0
  {
    if a != [] {
      OccurrencesAbsent(a[1..], c);
    }
  }

  /**
   * The joiner rule: for a tone-capable glyph with joiners, every joiner receives the
   * modifier in front of it, nothing else changes, and deleting those modifiers gives
   * back the glyph.
   */
  lemma AddModifierBeforeEveryJoiner(e: Entry, modifier: string)
    requires e.FitzpatrickScale && Zwj in e.Char && Zwj !in modifier
    ensures var r := AddModifier(e, modifier);
            && |r| == |e.Char| + Occurrences(e.Char, Zwj) * |modifier|
            && Occurrences(r, Zwj) == Occurrences(e.Char, Zwj)
            && (forall k :: 0 <= k < |r| && r[k] == Zwj ==> |modifier| <= k && r[k - |modifier|..k] == modifier)
            && RemoveBeforeJoiners(r, modifier) == e.Char
  {
    if modifier != "" {
      InsertKeepsJoinerCount(e.Char, modifier);
      JoinersFollowModifier(e.Char, modifier);
      RemoveUndoesInsert(e.Char, modifier);
    } else {
      RemoveUndoesInsert(e.Char, modifier);
      assert InsertBeforeJoiners(e.Char, modifier) == e.Char by {
        InsertWithEmptyModifier(e.Char);
      }
    }
  }

  lemma {:induction false} InsertWithEmptyModifier(s: string)
    ensures InsertBeforeJoiners(s, "") == s
  {
    if s != [] {
      InsertWithEmptyModifier(s[1..]);
    }
  }

  /** A one-person glyph gets the modifier appended; an entry that cannot be toned is kept. */
  lemma AddModifierExamples()
    ensures AddModifier(Entry([], "\U{1F44B}", true, "people"), "\U{1F3FD}") == "\U{1F44B}\U{1F3FD}"
    ensures AddModifier(Entry([], "\U{1F44C}", false, "people"), "\U{1F3FD}") == "\U{1F44C}"
  {
    assert Zwj !in "\U{1F44B}";
  }

  /** A family glyph gets the modifier before each of its joiners, none on the last person. */
  lemma AddModifierFamilyExample()
    ensures AddModifier(Entry([], "\U{1F468}\U{200D}\U{1F469}\U{200D}\U{1F466}", true, "people"), "\U{1F3FE}")
            == "\U{1F468}\U{1F3FE}\U{200D}\U{1F469}\U{1F3FE}\U{200D}\U{1F466}"
  {
    var e := Entry([], "\U{1F468}\U{200D}\U{1F469}\U{200D}\U{1F466}", true, "people");
    assert e.Char[1] == Zwj;
    AddModifierWithJoiner(e, "\U{1F3FE}");
    JoinedTripleExample('\U{1F468}', '\U{1F469}', '\U{1F466}', '\U{1F3FE}');
  }

  /** With a joiner in a tone-capable glyph, `addModifier` is the rewrite alone. */
  lemma AddModifierWithJoiner(e: Entry, modifier: string)
    requires e.FitzpatrickScale && modifier != "" && Zwj in e.Char
    ensures AddModifier(e, modifier) == InsertBeforeJoiners(e.Char, modifier)
  {
  }

  /** Two people joined: the modifier lands between the first person and the joiner. */
  lemma JoinedPairExample(a: char, b: char, mm: char)
    requires a != Zwj && b != Zwj
    ensures InsertBeforeJoiners([a, Zwj, b], [mm]) == [a, mm, Zwj, b]
  {
    InsertStep(b, [], [mm]);
    InsertStep(Zwj, [b], [mm]);
    InsertStep(a, [Zwj, b], [mm]);
  }

  /** Three people joined: each of the first two gets the modifier before its joiner. */
  lemma JoinedTripleExample(a: char, b: char, c: char, mm: char)
    requires a != Zwj && b != Zwj && c != Zwj
    ensures InsertBeforeJoiners([a, Zwj, b, Zwj, c], [mm]) == [a, mm, Zwj, b, mm, Zwj, c]
  {
    JoinerThenPair(b, c, mm);
    InsertStep(a, [Zwj, b, Zwj, c], [mm]);
    assert [a, Zwj, b, Zwj, c] == [a] + [Zwj, b, Zwj, c];
  }

  /** A joiner followed by a joined pair: the modifier lands before both joiners. */
  lemma JoinerThenPair(b: char, c: char, mm: char)
    requires b != Zwj && c != Zwj
    ensures InsertBeforeJoiners([Zwj, b, Zwj, c], [mm]) == [mm, Zwj, b, mm, Zwj, c]
  {
    JoinedPairExample(b, c, mm);
    InsertStep(Zwj, [b, Zwj, c], [mm]);
    assert [Zwj, b, Zwj, c] == [Zwj] + [b, Zwj, c];
  }

  /** One step of the rewrite: a leading character, then the rewritten rest. */
  lemma InsertStep(x: char, t: string, modifier: string)
    ensures InsertBeforeJoiners([x] + t, modifier)
            == (if x == Zwj then modifier + [Zwj] else [x]) + InsertBeforeJoiners(t, modifier)
  {
    assert ([x] + t)[1..] == t;
  }

  // ---------------------------------------------------------------------------
  // Skin-tone tables
  // ---------------------------------------------------------------------------

  /** The modifier for a skintone key: the zero value "" when the key is unknown. */
  function ModifierFor(key: string): (m: string)
    ensures m != "" <==> key in FitzpatrickScaleModifiers
    ensures key in FitzpatrickScaleModifiers ==> m == FitzpatrickScaleModifiers[key]
    ensures |m| <= 1 && Zwj !in m
  {
    if key in FitzpatrickScaleModifiers then FitzpatrickScaleModifiers[key] else ""
  }

  /** The picker list is the bare hand followed by the hand carrying level k's modifier. */
  lemma SkinToneSelectionsFollowScale(k: nat)
    requires 1 <= k <= 5
    ensures |SkinToneSelections| == 6 && SkinToneSelections[0] == Hand
    ensures ToneKey(k) in FitzpatrickScaleModifiers
    ensures SkinToneSelections[k] == Hand + FitzpatrickScaleModifiers[ToneKey(k)]
  {
    if k == 1 { assert ToneKey(k) == "skin_tone_1"; }
    else if k == 2 { assert ToneKey(k) == "skin_tone_2"; }
    else if k == 3 { assert ToneKey(k) == "skin_tone_3"; }
    else if k == 4 { assert ToneKey(k) == "skin_tone_4"; }
    else { assert ToneKey(k) == "skin_tone_5"; }
  }

  // ---------------------------------------------------------------------------
  // Catalog re-derivation (FetchSkinTonesHandler)
  // ---------------------------------------------------------------------------

  /** The entry with its glyph toned; keywords, category and flag are kept. */
  function Retoned(e: Entry, modifier: string): Entry
  {
    e.(Char := AddModifier(e, modifier))
  }

  /** The toned catalog the handler renders, derived from the base catalog. */
  function RetonedCatalog(base: Catalog, modifier: string): (r: Catalog)
    ensures r.Keys == base.Keys
    ensures forall name :: name in base && !base[name].FitzpatrickScale ==> r[name] == base[name]
    ensures forall name :: name in base ==>
              && r[name].Keywords == base[name].Keywords
              && r[name].Category == base[name].Category
              && r[name].FitzpatrickScale == base[name].FitzpatrickScale
              && r[name].Char == AddModifier(base[name], modifier)
    ensures modifier == "" ==> r == base
  {
    map name | name in base :: Retoned(base[name], modifier)
  }

  /** An unknown skintone key selects "", so the rendered catalog is the base one. */
  lemma UnknownSkinToneKeepsCatalog(base: Catalog, key: string)
    requires key !in FitzpatrickScaleModifiers
    ensures RetonedCatalog(base, ModifierFor(key)) == base
  {
  }

  /** The first loop of the handler: the entries that can carry a modifier. */
  method SkinTonable(emojis: Catalog) returns (tonable: Catalog)
    ensures tonable.Keys <= emojis.Keys
    ensures forall name :: name in emojis ==> (name in tonable <==> emojis[name].FitzpatrickScale)
    ensures forall name :: name in tonable ==> tonable[name] == emojis[name]
  {
    tonable := map[];
    var rest := emojis.Keys;
    while rest != {}
      invariant rest <= emojis.Keys
      invariant tonable.Keys <= emojis.Keys - rest
      invariant forall name :: name in emojis.Keys - rest ==> (name in tonable <==> emojis[name].FitzpatrickScale)
      invariant forall name :: name in tonable ==> tonable[name] == emojis[name]
      decreases rest
    {
      var name :| name in rest;
      if emojis[name].FitzpatrickScale {
        tonable := tonable[name := emojis[name]];
      }
      rest := rest - {name};
    }
  }

  /** The second loop of the handler: each tone-capable entry with its glyph rewritten. */
  method SkinTone(tonable: Catalog, modifier: string) returns (toned: Catalog)
    ensures toned.Keys == tonable.Keys
    ensures forall name :: name in toned ==> toned[name] == Retoned(tonable[name], modifier)
  {
    toned := map[];
    var rest := tonable.Keys;
    while rest != {}
      invariant rest <= tonable.Keys
      invariant toned.Keys == tonable.Keys - rest
      invariant forall name :: name in toned ==> toned[name] == Retoned(tonable[name], modifier)
      decreases rest
    {
      var name :| name in rest;
      var e := tonable[name];
      toned := toned[name := e.(Char := AddModifier(e, modifier))];
      rest := rest - {name};
    }
  }

  /**
   * `mergeMaps`: a copy of o in which the names that st also holds take st's entry.
   * Names only in st are never added.
   */
  method MergeMaps(o: Catalog, st: Catalog) returns (merger: Catalog)
    ensures merger.Keys == o.Keys
    ensures forall name :: name in o && name in st ==> merger[name] == st[name]
    ensures forall name :: name in o && name !in st ==> merger[name] == o[name]
  {
    merger := map[];
    var rest := o.Keys;
    while rest != {}
      invariant rest <= o.Keys
      invariant merger.Keys == o.Keys - rest
      invariant forall name :: name in merger ==> merger[name] == o[name]
      decreases rest
    {
      var name :| name in rest;
      merger := merger[name := o[name]];
      rest := rest - {name};
    }
    rest := st.Keys;
    while rest != {}
      invariant rest <= st.Keys
      invariant merger.Keys == o.Keys
      invariant forall name :: name in o && name in st && name !in rest ==> merger[name] == st[name]
      invariant forall name :: name in o && (name !in st || name in rest) ==> merger[name] == o[name]
      decreases rest
    {
      var name :| name in rest;
      if name in merger {
        merger := merger[name := st[name]];
      }
      rest := rest - {name};
    }
  }

  /** Partition, retone and merge, as FetchSkinTonesHandler runs them on the base catalog. */
  method Retone(emojis: Catalog, modifier: string) returns (updated: Catalog)
    ensures updated == RetonedCatalog(emojis, modifier)
  {
    var tonable := SkinTonable(emojis);
    var toned := SkinTone(tonable, modifier);
    updated := MergeMaps(emojis, toned);
  }

  // ---------------------------------------------------------------------------
  // Cookie and hand selection
  // ---------------------------------------------------------------------------

  /**
   * The character Go's `string(b)` yields for the last UTF-8 byte of c: c itself when
   * c is ASCII, otherwise the continuation byte 0x80 | (c & 0x3F) read as a code point.
   */
  function LastByteRune(c: char): (r: char)
    ensures c as int < 0x80 ==> r == c
    ensures 0x80 <= r as int < 0xC0 <==> 0x80 <= c as int
  {
    if c as int < 0x80 then c else (0x80 + c as int % 0x40) as char
  }

  /** `string(tone[len(tone)-1])`: the `tone` cookie value; an empty key indexes byte -1. */
  function CookieValue(tone: string): (r: Result<string>)
    ensures r.Err? <==> tone == ""
    ensures r.Err? ==> r.failure == Panic(IndexOutOfRange)
    ensures r.Ok? ==> |r.value| == 1 && (tone[|tone| - 1] as int < 0x80 ==> r.value == [tone[|tone| - 1]])
  {
    if tone == "" then Err(Panic(IndexOutOfRange)) else Ok([LastByteRune(tone[|tone| - 1])])
  }

  predicate IsDigit(c: char)
  {
    '0' <= c <= '9'
  }

  /** The value of a string of decimal digits. */
  function DecimalValue(ds: string): nat
    requires forall c :: c in ds ==> IsDigit(c)
  {
    if ds == [] then 0
    else
      assert IsDigit(ds[|ds| - 1]);
      DecimalValue(ds[..|ds| - 1]) * 10 + (ds[|ds| - 1] as int - '0' as int)
  }

  /** A non-empty string of decimal digits. */
  predicate IsNumeral(ds: string)
  {
    ds != [] && forall c :: c in ds ==> IsDigit(c)
  }

  /** What `strconv.Atoi` accepts: an optional '+' or '-', then a numeral. */
  predicate IsSignedNumeral(s: string)
  {
    || IsNumeral(s)
    || (|s| > 0 && (s[0] == '+' || s[0] == '-') && IsNumeral(s[1..]))
  }

  /**
   * `strconv.Atoi` with its error discarded: a signed numeral gives its value, anything
   * else (a syntax error) gives 0.
   */
  function Atoi(s: string): (n: int)
    ensures !IsSignedNumeral(s) ==> n == 0
    ensures IsNumeral(s) ==> n == DecimalValue(s)
    ensures |s| > 0 && s[0] == '+' && IsNumeral(s[1..]) ==> n == DecimalValue(s[1..])
    ensures |s| > 0 && s[0] == '-' && IsNumeral(s[1..]) ==> n == -(DecimalValue(s[1..]) as int)
    ensures |s| == 1 && IsDigit(s[0]) ==> n == s[0] as int - '0' as int
  {
    var neg := |s| > 0 && s[0] == '-';
    var digits := if |s| > 0 && (s[0] == '-' || s[0] == '+') then s[1..] else s;
    assert IsNumeral(s) ==> digits == s by {
      if IsNumeral(s) { assert s[0] in s; }
    }
    if !IsNumeral(digits) then 0
    else
      var v: int := DecimalValue(digits);
      assert |s| == 1 && IsDigit(s[0]) ==> v == s[0] as int - '0' as int by {
        if |s| == 1 && IsDigit(s[0]) {
          assert digits == s && digits[..|digits| - 1] == [];
          assert DecimalValue(digits) == DecimalValue([]) * 10 + (digits[0] as int - '0' as int);
        }
      }
      if neg then -v else v
  }

  /** Signs, several digits and syntax errors, as `strconv.Atoi` reads them here. */
  lemma AtoiExamples()
    ensures Atoi("10") == 10 && Atoi("+3") == 3 && Atoi("-1") == -1
    ensures Atoi("abc") == 0 && Atoi("") == 0 && Atoi("-") == 0 && Atoi(" 1") == 0
  {
    assert IsNumeral("10") && "10"[..1] == "1" && "1"[..0] == [];
    assert DecimalValue("10") == DecimalValue("1") * 10 + 0;
    assert "+3"[1..] == "3" && "-1"[1..] == "1";
    assert "abc"[0] in "abc" && !IsDigit("abc"[0]);
    assert " 1"[0] in " 1" && !IsDigit(" 1"[0]);
  }

  /**
   * The hand shown by the index handler: selection 0 without a `tone` cookie,
   * otherwise the selection the cookie's number picks; a cookie that is not a number
   * reads as 0, and a number outside the list panics.
   */
  function PickHand(selections: seq<string>, cookie: Option<string>): (r: Result<string>)
    ensures cookie.None? && |selections| > 0 ==> r == Ok(selections[0])
    ensures cookie.Some? && !IsSignedNumeral(cookie.value) && |selections| > 0 ==> r == Ok(selections[0])
    ensures r.Ok? ==> r.value in selections
    ensures r.Err? <==> !(0 <= (if cookie.None? then 0 else Atoi(cookie.value)) < |selections|)
    ensures r.Err? ==> r.failure == Panic(IndexOutOfRange)
  {
    var preference := if cookie.None? then 0 else Atoi(cookie.value);
    if 0 <= preference < |selections| then Ok(selections[preference]) else Err(Panic(IndexOutOfRange))
  }

  /** The fail-soft path: a `tone` cookie that is not a number shows the bare hand. */
  lemma NonNumericCookieShowsBareHand(cookie: string)
    requires !IsSignedNumeral(cookie)
    ensures PickHand(SkinToneSelections, Some(cookie)) == Ok(Hand)
  {
  }

  /**
   * The two handlers agree: the cookie set for skintone level k makes the next index
   * page show the hand with level k's modifier. The page also offers level 0, whose key
   * is unknown: it keeps the base catalog and its cookie selects the bare hand.
   */
  lemma ToneCookieSelectsHand(k: nat)
    requires 0 <= k <= 5
    ensures CookieValue(ToneKey(k)) == Ok([Digit(k)])
    ensures PickHand(SkinToneSelections, Some([Digit(k)])) == Ok(Hand + ModifierFor(ToneKey(k)))
  {
    var key := ToneKey(k);
    assert key[|key| - 1] == Digit(k);
    if k == 0 {
      assert key == "skin_tone_0";
      assert ModifierFor(key) == "";
      assert Hand + "" == Hand;
    } else {
      SkinToneSelectionsFollowScale(k);
    }
  }

  // ---------------------------------------------------------------------------
  // The `dict` template function
  // ---------------------------------------------------------------------------

  /**
   * What `dict` builds from the arguments still to read, starting from acc: a string
   * key takes the next argument as its value, a map[string]interface{} is merged in.
   */
  function DictFrom(acc: map<string, Value>, values: seq<Value>): Result<map<string, Value>>
    decreases |values|
  {
    if values == [] then Ok(acc)
    else match values[0]
      case Str(key) =>
        if |values| == 1 then Err(Error("specify the key for non array values"))
        else DictFrom(acc[key := values[1]], values[2..])
      case StrMap(m) => DictFrom(acc + m, values[1..])
      case OtherMap => Err(Panic(FailedTypeAssertion))
      case Nil => Err(Panic(NilTypeKind))
      case Scalar(_) => Err(Error("dict values must be maps"))
  }

  /** `dict`: the index loop that advances past a key's value inside its body. */
  method Dict(values: seq<Value>) returns (r: Result<map<string, Value>>)
    ensures values == [] ==> r == Err(Error("invalid dict call"))
    ensures values != [] ==> r == DictFrom(map[], values)
  {
    if |values| == 0 {
      return Err(Error("invalid dict call"));
    }
    var dict: map<string, Value> := map[];
    var i := 0;
    while i < |values|
      invariant 0 <= i <= |values|
      invariant DictFrom(map[], values) == DictFrom(dict, values[i..])
      decreases |values| - i
    {
      assert values[i..][0] == values[i];
      match values[i] {
        case Str(key) =>
          i := i + 1;
          if i == |values| {
            return Err(Error("specify the key for non array values"));
          }
          assert values[i - 1..][2..] == values[i + 1..];
          dict := dict[key := values[i]];
        case StrMap(m) =>
          assert values[i..][1..] == values[i + 1..];
          dict := dict + m;
        case OtherMap =>
          return Err(Panic(FailedTypeAssertion));
        case Nil =>
          return Err(Panic(NilTypeKind));
        case Scalar(_) =>
          return Err(Error("dict values must be maps"));
      }
      i := i + 1;
    }
    r := Ok(dict);
  }

  /** Arguments read completely leave the rest to be read from the dictionary they built. */
  lemma {:induction false} DictFromAppend(acc: map<string, Value>, xs: seq<Value>, ys: seq<Value>, d: map<string, Value>)
    requires DictFrom(acc, xs) == Ok(d)
    ensures DictFrom(acc, xs + ys) == DictFrom(d, ys)
    decreases |xs|
  {
    if xs != [] {
      assert (xs + ys)[0] == xs[0];
      match xs[0]
      case Str(key) =>
        assert (xs + ys)[1] == xs[1];
        assert (xs + ys)[2..] == xs[2..] + ys;
        DictFromAppend(acc[key := xs[1]], xs[2..], ys, d);
      case StrMap(m) =>
        assert (xs + ys)[1..] == xs[1..] + ys;
        DictFromAppend(acc + m, xs[1..], ys, d);
    } else {
      assert xs + ys == ys;
    }
  }

  /** A later key overwrites an earlier one. */
  lemma DictLaterKeyWins(xs: seq<Value>, key: string, v: Value, d: map<string, Value>)
    requires DictFrom(map[], xs) == Ok(d)
    ensures DictFrom(map[], xs + [Str(key), v]) == Ok(d[key := v])
  {
    DictFromAppend(map[], xs, [Str(key), v], d);
  }

  /** A map argument merges its entries over what was built so far. */
  lemma DictMergesMap(xs: seq<Value>, m: map<string, Value>, d: map<string, Value>)
    requires DictFrom(map[], xs) == Ok(d)
    ensures DictFrom(map[], xs + [StrMap(m)]) == Ok(d + m)
  {
    DictFromAppend(map[], xs, [StrMap(m)], d);
  }

  /** A key with no value after it is an error, and so is a non-map, non-string argument. */
  lemma DictRejectsMalformed(xs: seq<Value>, key: string, n: int, ys: seq<Value>, d: map<string, Value>)
    requires DictFrom(map[], xs) == Ok(d)
    ensures DictFrom(map[], xs + [Str(key)]) == Err(Error("specify the key for non array values"))
    ensures DictFrom(map[], xs + [Scalar(n)] + ys) == Err(Error("dict values must be maps"))
  {
    DictFromAppend(map[], xs, [Str(key)], d);
    assert xs + [Scalar(n)] + ys == xs + ([Scalar(n)] + ys);
    DictFromAppend(map[], xs, [Scalar(n)] + ys, d);
  }
}
