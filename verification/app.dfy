/**
 * The main package: its own copy of the modifier rule, the tone picker built from the
 * modifier table, its `mergeMaps` (which writes into a nil map), and the hand the
 * index handler shows. The package's `emoji` struct and modifier table are identical to
 * the emoji package's, so Emoji.Entry and Emoji.FitzpatrickScaleModifiers stand for them.
 */
module App {
  import opened Go
  import Emoji

  /** main.go's `addModifier`: the same rule as the emoji package's copy. */
  function AddModifier(e: Emoji.Entry, modifier: string): (r: string)
    ensures modifier == "" || !e.FitzpatrickScale ==> r == e.Char
    ensures r == Emoji.AddModifier(e, modifier)
  {
    if modifier == "" || !e.FitzpatrickScale then e.Char
    else if Emoji.Zwj in e.Char then Emoji.InsertBeforeJoiners(e.Char, modifier)
    else e.Char + modifier
  }

  /** No two keys of the modifier table share a modifier, and it has five keys. */
  lemma ModifiersDistinct()
    ensures |Emoji.FitzpatrickScaleModifiers.Keys| == 5
    ensures forall k1, k2 :: k1 in Emoji.FitzpatrickScaleModifiers && k2 in Emoji.FitzpatrickScaleModifiers && k1 != k2 ==>
              Emoji.FitzpatrickScaleModifiers[k1] != Emoji.FitzpatrickScaleModifiers[k2]
  {
    var keys := Emoji.FitzpatrickScaleModifiers.Keys;
    assert keys == {"skin_tone_1", "skin_tone_2", "skin_tone_3", "skin_tone_4", "skin_tone_5"};
  }

  /**
   * The keys of m in the order a Go `range` loop visits them. Go leaves that order
   * unspecified, so the next key is chosen freely: every order can come out.
   */
  method RangeOrder<K(==), V>(m: map<K, V>) returns (keys: seq<K>)
    ensures |keys| == |m|
    ensures forall k :: k in m <==> k in keys
    ensures forall i, j :: 0 <= i < j < |keys| ==> keys[i] != keys[j]
  {
    keys := [];
    var rest := m.Keys;
    while rest != {}
      invariant rest <= m.Keys
      invariant |keys| + |rest| == |m|
      invariant forall k :: k in m <==> k in keys || k in rest
      invariant forall k :: k in keys ==> k !in rest
      invariant forall i, j :: 0 <= i < j < |keys| ==> keys[i] != keys[j]
      decreases rest
    {
      var key :| key in rest;
      keys := keys + [key];
      rest := rest - {key};
    }
  }

  /** s is the base glyph with some modifier of the table appended. */
  ghost predicate FromTable(s: string, base: string, table: map<string, string>)
  {
    exists key :: key in table && s == base + table[key]
  }

  /** s is one of the toned choices of the picker (those after the first). */
  ghost predicate Offers(sts: seq<string>, s: string)
  {
    exists i :: 1 <= i < |sts| && sts[i] == s
  }

  /**
   * sts is a tone picker for base over table: the base glyph first, then the base glyph
   * with each modifier of the table appended, every modifier exactly once.
   */
  ghost predicate IsTonePicker(sts: seq<string>, base: string, table: map<string, string>)
  {
    && |sts| == |table| + 1
    && sts[0] == base
    && (forall i :: 1 <= i < |sts| ==> FromTable(sts[i], base, table))
    && (forall key :: key in table ==> Offers(sts, base + table[key]))
    && (forall i, j :: 1 <= i < j < |sts| ==> sts[i] != sts[j])
  }

  /** The two loops of `combineEmojiWithTones`, over a modifier table with distinct modifiers. */
  method CombineWith(baseEmoji: string, table: map<string, string>) returns (sts: seq<string>)
    requires forall k1, k2 :: k1 in table && k2 in table && k1 != k2 ==> table[k1] != table[k2]
    ensures IsTonePicker(sts, baseEmoji, table)
  {
    var keys := RangeOrder(table);
    var tones: seq<string> := [];
    for i := 0 to |keys|
      invariant |tones| == i
      invariant forall j :: 0 <= j < i ==> tones[j] == table[keys[j]]
    {
      tones := tones + [table[keys[i]]];
    }
    sts := [baseEmoji];
    for t := 0 to |tones|
      invariant |sts| == t + 1 && sts[0] == baseEmoji
      invariant forall i :: 1 <= i < |sts| ==> sts[i] == baseEmoji + tones[i - 1]
    {
      sts := sts + [baseEmoji + tones[t]];
    }
    forall i | 1 <= i < |sts|
      ensures FromTable(sts[i], baseEmoji, table)
    {
      assert keys[i - 1] in table && sts[i] == baseEmoji + table[keys[i - 1]];
    }
    forall i, j | 1 <= i < j < |sts|
      ensures sts[i] != sts[j]
    {
      assert keys[i - 1] != keys[j - 1];
      assert tones[i - 1] != tones[j - 1];
      assert sts[i][|baseEmoji|..] == tones[i - 1];
      assert sts[j][|baseEmoji|..] == tones[j - 1];
    }
    forall key | key in table
      ensures Offers(sts, baseEmoji + table[key])
    {
      var i :| 0 <= i < |keys| && keys[i] == key;
      assert sts[i + 1] == baseEmoji + table[key];
    }
  }

  /**
   * `combineEmojiWithTones`: six glyphs, the base glyph and then the base glyph with each
   * of the five modifiers appended exactly once, in the table's range order.
   */
  method CombineEmojiWithTones(baseEmoji: string) returns (sts: seq<string>)
    ensures |sts| == 6
    ensures IsTonePicker(sts, baseEmoji, Emoji.FitzpatrickScaleModifiers)
  {
    ModifiersDistinct();
    sts := CombineWith(baseEmoji, Emoji.FitzpatrickScaleModifiers);
  }

  /**
   * main.go's `mergeMaps` declares `merger` without making it, so the first assignment
   * `merger[name] = emoji` panics. It returns only when o is empty, and then returns the
   * nil map, which reads as empty.
   */
  function MergeMaps(o: Emoji.Catalog, st: Emoji.Catalog): (r: Result<Emoji.Catalog>)
    ensures r.Ok? <==> o == map[]
    ensures r.Err? ==> r.failure == Panic(AssignmentToNilMap)
    ensures r.Ok? ==> r.value.Keys == o.Keys
  {
    if o == map[] then Ok(map[]) else Err(Panic(AssignmentToNilMap))
  }

  /** Any non-empty catalog makes main.go's merge panic, where emoji.go's returns it. */
  lemma NilMapMergePanics(o: Emoji.Catalog, st: Emoji.Catalog, name: string)
    requires name in o
    ensures MergeMaps(o, st) == Err(Panic(AssignmentToNilMap))
  {
  }

  /**
   * `indexHandler`'s hand: the picker built for U+270B, then the selection the `tone`
   * cookie picks; without the cookie, or with one that is not a number, it is the bare
   * hand. The picker is rebuilt on every request in map-range order, so the same numeric
   * cookie may pick a different toned hand from one request to the next.
   */
  method IndexHand(cookie: Option<string>) returns (hand: Result<string>)
    ensures cookie.None? ==> hand == Ok(Emoji.Hand)
    ensures cookie.Some? && !Emoji.IsSignedNumeral(cookie.value) ==> hand == Ok(Emoji.Hand)
    ensures hand.Ok? ==>
              (|| hand.value == Emoji.Hand
               || exists key :: key in Emoji.FitzpatrickScaleModifiers && hand.value == Emoji.Hand + Emoji.FitzpatrickScaleModifiers[key])
    ensures hand.Err? <==> cookie.Some? && !(0 <= Emoji.Atoi(cookie.value) < 6)
  {
    var selections := CombineEmojiWithTones(Emoji.Hand);
    hand := Emoji.PickHand(selections, cookie);
  }
}
