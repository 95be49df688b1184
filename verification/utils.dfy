/** The utils package: the `Wrap` and `Concat` template helpers. */
module Utils {
  import opened Go

  // ---------------------------------------------------------------------------
  // Wrap
  // ---------------------------------------------------------------------------

  /**
   * What `Wrap` builds from the arguments still to read, starting from acc: each
   * string key takes the argument after it as its value.
   */
  function WrapFrom(acc: map<string, Value>, values: seq<Value>): Result<map<string, Value>>
    decreases |values|
  {
    if values == [] then Ok(acc)
    else if !values[0].Str? then Err(Error("dict keys must be strings"))
    else if |values| == 1 then Err(Panic(IndexOutOfRange))
    else WrapFrom(acc[values[0].s := values[1]], values[2..])
  }

  /** `Wrap`: the loop that steps two arguments at a time, key then value. */
  method Wrap(values: seq<Value>) returns (r: Result<map<string, Value>>)
    ensures r == WrapFrom(map[], values)
  {
    var data: map<string, Value> := map[];
    var i := 0;
    while i < |values|
      invariant 0 <= i <= |values|
      invariant WrapFrom(map[], values) == WrapFrom(data, values[i..])
      decreases |values| - i
    {
      assert values[i..][0] == values[i];
      if !values[i].Str? {
        return Err(Error("dict keys must be strings"));
      }
      if i + 1 == |values| {
        return Err(Panic(IndexOutOfRange));
      }
      assert values[i..][1] == values[i + 1];
      assert values[i..][2..] == values[i + 2..];
      data := data[values[i].s := values[i + 1]];
      i := i + 2;
    }
    r := Ok(data);
  }

  /** Every argument at an even index is a string. */
  ghost predicate KeysAreStrings(values: seq<Value>)
  {
    forall i :: 0 <= i < |values| && i % 2 == 0 ==> values[i].Str?
  }

  /** The string keys at the even indices. */
  ghost function KeysOf(values: seq<Value>): set<string>
  {
    set i | 0 <= i < |values| && i % 2 == 0 && values[i].Str? :: values[i].s
  }

  lemma KeysAreStringsStep(values: seq<Value>)
    requires |values| >= 2
    ensures KeysAreStrings(values) <==> values[0].Str? && KeysAreStrings(values[2..])
  {
    var rest := values[2..];
    if values[0].Str? && KeysAreStrings(rest) {
      forall i | 0 <= i < |values| && i % 2 == 0 ensures values[i].Str? {
        if i >= 2 { assert values[i] == rest[i - 2]; }
      }
    }
    if KeysAreStrings(values) {
      forall i | 0 <= i < |rest| && i % 2 == 0 ensures rest[i].Str? {
        assert rest[i] == values[i + 2];
      }
    }
  }

  lemma KeysOfStep(values: seq<Value>)
    requires |values| >= 2 && values[0].Str?
    ensures KeysOf(values) == {values[0].s} + KeysOf(values[2..])
  {
    var rest := values[2..];
    forall k | k in KeysOf(values) ensures k in {values[0].s} + KeysOf(rest) {
      var i :| 0 <= i < |values| && i % 2 == 0 && values[i].Str? && values[i].s == k;
      if i >= 2 { assert rest[i - 2] == values[i]; }
    }
    forall k | k in KeysOf(rest) ensures k in KeysOf(values) {
      var i :| 0 <= i < |rest| && i % 2 == 0 && rest[i].Str? && rest[i].s == k;
      assert values[i + 2] == rest[i];
    }
  }

  /** Wrap succeeds exactly when the arguments pair up and every key is a string. */
  lemma {:induction false} WrapFromSucceeds(acc: map<string, Value>, values: seq<Value>)
    ensures WrapFrom(acc, values).Ok? <==> |values| % 2 == 0 && KeysAreStrings(values)
    decreases |values|
  {
    if |values| >= 2 {
      KeysAreStringsStep(values);
      if values[0].Str? {
        WrapFromSucceeds(acc[values[0].s := values[1]], values[2..]);
      }
    } else if |values| == 1 {
      assert !values[0].Str? ==> !KeysAreStrings(values);
    }
  }

  /**
   * How Wrap fails: a non-string key is reached before the arguments run out, so it is
   * reported as an error; with string keys only, an odd count indexes past the end.
   */
  lemma {:induction false} WrapFromFailure(acc: map<string, Value>, values: seq<Value>)
    ensures !KeysAreStrings(values) ==> WrapFrom(acc, values) == Err(Error("dict keys must be strings"))
    ensures KeysAreStrings(values) && |values| % 2 == 1 ==> WrapFrom(acc, values) == Err(Panic(IndexOutOfRange))
    decreases |values|
  {
    if |values| >= 2 {
      KeysAreStringsStep(values);
      if values[0].Str? {
        WrapFromFailure(acc[values[0].s := values[1]], values[2..]);
      }
    } else if |values| == 1 {
      assert KeysAreStrings(values) <==> values[0].Str?;
    }
  }

  /**
   * A successful Wrap holds the keys of acc and of the arguments; the keys of acc that
   * no argument names keep their values.
   */
  lemma {:induction false} WrapFromKeys(acc: map<string, Value>, values: seq<Value>)
    requires WrapFrom(acc, values).Ok?
    ensures |values| % 2 == 0 && KeysAreStrings(values)
    ensures var d := WrapFrom(acc, values).value;
            && d.Keys == acc.Keys + KeysOf(values)
            && (forall k :: k in acc && k !in KeysOf(values) ==> d[k] == acc[k])
    decreases |values|
  {
    WrapFromSucceeds(acc, values);
    if values != [] {
      WrapFromKeys(acc[values[0].s := values[1]], values[2..]);
      KeysOfStep(values);
    }
  }

  /** In a successful Wrap, each key maps to the value after its last occurrence. */
  lemma {:induction false} WrapFromLastWins(acc: map<string, Value>, values: seq<Value>)
    requires WrapFrom(acc, values).Ok?
    ensures |values| % 2 == 0 && KeysAreStrings(values)
    ensures var d := WrapFrom(acc, values).value;
            forall i :: 0 <= i < |values| && i % 2 == 0 && LastKeyAt(values, i) ==>
              values[i].s in d && d[values[i].s] == values[i + 1]
    decreases |values|
  {
    WrapFromSucceeds(acc, values);
    if values != [] {
      var rest := values[2..];
      var acc' := acc[values[0].s := values[1]];
      WrapFromLastWins(acc', rest);
      var d := WrapFrom(acc, values).value;
      assert d == WrapFrom(acc', rest).value;
      forall i | 0 <= i < |values| && i % 2 == 0 && LastKeyAt(values, i)
        ensures values[i].s in d && d[values[i].s] == values[i + 1]
      {
        if i == 0 {
          LastKeyHead(acc, values);
        } else {
          LastKeyStep(values, i);
          assert rest[i - 2] == values[i] && rest[i - 1] == values[i + 1];
        }
      }
    }
  }

  /** A first key that never comes again keeps the value after it. */
  lemma LastKeyHead(acc: map<string, Value>, values: seq<Value>)
    requires |values| >= 2 && values[0].Str? && LastKeyAt(values, 0)
    requires WrapFrom(acc, values).Ok?
    ensures values[0].s in WrapFrom(acc, values).value
    ensures WrapFrom(acc, values).value[values[0].s] == values[1]
  {
    var acc' := acc[values[0].s := values[1]];
    FirstKeyNotLater(values);
    WrapFromKeys(acc', values[2..]);
  }

  /**
   * A successful Wrap holds exactly the keys of acc and of the arguments, each argument
   * key mapped to the value after its last occurrence, the other keys of acc unchanged.
   */
  lemma WrapFromContents(acc: map<string, Value>, values: seq<Value>)
    requires WrapFrom(acc, values).Ok?
    ensures |values| % 2 == 0 && KeysAreStrings(values)
    ensures var d := WrapFrom(acc, values).value;
            && d.Keys == acc.Keys + KeysOf(values)
            && (forall k :: k in acc && k !in KeysOf(values) ==> d[k] == acc[k])
            && (forall i :: 0 <= i < |values| && i % 2 == 0 && LastKeyAt(values, i) ==> d[values[i].s] == values[i + 1])
  {
    WrapFromKeys(acc, values);
    WrapFromLastWins(acc, values);
  }

  lemma FirstKeyNotLater(values: seq<Value>)
    requires |values| >= 2 && values[0].Str? && LastKeyAt(values, 0)
    ensures values[0].s !in KeysOf(values[2..])
  {
    var rest := values[2..];
    forall j | 0 <= j < |rest| && j % 2 == 0
      ensures rest[j] != values[0]
    {
      assert rest[j] == values[j + 2];
    }
  }

  lemma LastKeyStep(values: seq<Value>, i: nat)
    requires 2 <= i < |values| && LastKeyAt(values, i)
    ensures LastKeyAt(values[2..], i - 2)
  {
    var rest := values[2..];
    forall j | i - 2 < j < |rest| && j % 2 == 0 ensures rest[j] != rest[i - 2] {
      assert rest[j] == values[j + 2];
    }
  }

  /** The key at even index i does not come again at a later even index. */
  ghost predicate LastKeyAt(values: seq<Value>, i: nat)
    requires i < |values|
  {
    forall j :: i < j < |values| && j % 2 == 0 ==> values[j] != values[i]
  }

  /** `Wrap` as the template sees it: the pairs as a map, later duplicates winning. */
  lemma WrapPairs(values: seq<Value>)
    ensures WrapFrom(map[], values).Ok? <==> |values| % 2 == 0 && KeysAreStrings(values)
    ensures !KeysAreStrings(values) ==> WrapFrom(map[], values) == Err(Error("dict keys must be strings"))
    ensures KeysAreStrings(values) && |values| % 2 == 1 ==> WrapFrom(map[], values) == Err(Panic(IndexOutOfRange))
    ensures WrapFrom(map[], values).Ok? ==>
              var d := WrapFrom(map[], values).value;
              && d.Keys == KeysOf(values)
              && (forall i :: 0 <= i < |values| && i % 2 == 0 && LastKeyAt(values, i) ==> d[values[i].s] == values[i + 1])
  {
    WrapFromSucceeds(map[], values);
    WrapFromFailure(map[], values);
    if WrapFrom(map[], values).Ok? {
      WrapFromContents(map[], values);
    }
  }

  // ---------------------------------------------------------------------------
  // Concat
  // ---------------------------------------------------------------------------

  /** `strings.Join`: the strings with sep between each two neighbours. */
  function Join(strs: seq<string>, sep: string): string
  {
    if strs == [] then ""
    else if |strs| == 1 then strs[0]
    else strs[0] + sep + Join(strs[1..], sep)
  }

  /** `strings.Replace(s, [from], [to], -1)` for single characters. */
  function ReplaceChar(s: string, from: char, to: char): (r: string)
    ensures |r| == |s|
    ensures forall k :: 0 <= k < |s| ==> r[k] == (if s[k] == from then to else s[k])
    ensures forall x :: x in r && x != to ==> x in s && x != from
  {
    if s == [] then [] else [if s[0] == from then to else s[0]] + ReplaceChar(s[1..], from, to)
  }

  /** The number of leading c's of s. */
  function Lead(s: string, c: char): (n: nat)
    ensures n <= |s|
    ensures forall k :: 0 <= k < n ==> s[k] == c
    ensures n == |s| || s[n] != c
  {
    if s != [] && s[0] == c then 1 + Lead(s[1..], c) else 0
  }

  /** The number of trailing c's of s. */
  function Trail(s: string, c: char): (n: nat)
    ensures n <= |s|
    ensures forall k :: |s| - n <= k < |s| ==> s[k] == c
    ensures n == |s| || s[|s| - n - 1] != c
  {
    if s != [] && s[|s| - 1] == c then 1 + Trail(s[..|s| - 1], c) else 0
  }

  /** `strings.TrimLeft(s, [c])`: the suffix of s after its leading c's. */
  function TrimLeft(s: string, c: char): (r: string)
    ensures |r| <= |s| && r == s[|s| - |r|..]
    ensures forall k :: 0 <= k < |s| - |r| ==> s[k] == c
    ensures |r| > 0 ==> r[0] != c
  {
    s[Lead(s, c)..]
  }

  /** `strings.TrimRight(s, [c])`: the prefix of s before its trailing c's. */
  function TrimRight(s: string, c: char): (r: string)
    ensures |r| <= |s| && r == s[..|r|]
    ensures forall k :: |r| <= k < |s| ==> s[k] == c
    ensures |r| > 0 ==> r[|r| - 1] != c
  {
    s[..|s| - Trail(s, c)]
  }

  /** Every character of s before index i and from index j on is c. */
  ghost predicate PaddedWith(s: string, i: nat, j: nat, c: char)
  {
    && (forall k :: 0 <= k < i && k < |s| ==> s[k] == c)
    && (forall k :: j <= k < |s| ==> s[k] == c)
  }

  /**
   * `strings.Trim(s, [c])`: the part of s between its leading and trailing c's; it
   * neither starts nor ends with c.
   */
  function Trim(s: string, c: char): (r: string)
    ensures Lead(s, c) + |r| <= |s|
    ensures r == s[Lead(s, c)..Lead(s, c) + |r|]
    ensures PaddedWith(s, Lead(s, c), Lead(s, c) + |r|, c)
    ensures |r| > 0 ==> r[0] != c && r[|r| - 1] != c
  {
    var i := Lead(s, c);
    var left := s[i..];
    var r := left[..|left| - Trail(left, c)];
    assert r == s[i..i + |r|];
    forall k | i + |r| <= k < |s| ensures s[k] == c {
      assert s[k] == left[k - i];
    }
    r
  }

  /**
   * `Concat`: str, then the strings joined by spaces (no space after str), with the
   * brackets of a printed slice turned into spaces and the outer spaces trimmed.
   */
  function Concat(str: string, strs: seq<string>): (r: string)
    ensures '[' !in r && ']' !in r
    ensures |r| > 0 ==> r[0] != ' ' && r[|r| - 1] != ' '
    ensures |r| <= |str + Join(strs, " ")|
  {
    var g := Unbracketed(str + Join(strs, " "));
    TrimmedShape(g);
    Trim(g, ' ')
  }

  /** The brackets of a printed slice turned into spaces, one `strings.Replace` each. */
  function Unbracketed(f: string): (g: string)
    ensures |g| == |f|
    ensures forall k :: 0 <= k < |f| ==> g[k] == Unbracket(f[k])
  {
    ReplaceChar(ReplaceChar(f, '[', ' '), ']', ' ')
  }

  /** Trimming the spaces off a bracket-free string leaves it bracket-free. */
  lemma TrimmedShape(g: string)
    requires forall m :: 0 <= m < |g| ==> g[m] != '[' && g[m] != ']'
    ensures var r := Trim(g, ' ');
            && '[' !in r && ']' !in r
            && (|r| > 0 ==> r[0] != ' ' && r[|r| - 1] != ' ')
            && |r| <= |g|
  {
    var r := Trim(g, ' ');
    var i := Lead(g, ' ');
    forall k | 0 <= k < |r| ensures r[k] != '[' && r[k] != ']' {
      assert r[k] == g[i + k];
    }
  }

  /** The brackets of a printed slice, read as spaces. */
  function Unbracket(c: char): char
  {
    if c == '[' || c == ']' then ' ' else c
  }

  /** A character Concat strips from the ends: a space or a bracket. */
  predicate Blank(c: char)
  {
    c == ' ' || c == '[' || c == ']'
  }

  /** r is f[i..j] with its brackets read as spaces, and f is blank outside [i, j). */
  ghost predicate CutFrom(f: string, r: string, i: nat, j: nat)
  {
    && i <= j <= |f| && |r| == j - i
    && (forall k :: 0 <= k < |r| ==> r[k] == Unbracket(f[i + k]))
    && (forall k :: 0 <= k < i ==> Blank(f[k]))
    && (forall k :: j <= k < |f| ==> Blank(f[k]))
  }

  /**
   * What Concat returns: the joined text with brackets read as spaces, cut down to the
   * part between its leading and trailing blanks.
   */
  lemma ConcatContent(str: string, strs: seq<string>)
    ensures exists i, j :: CutFrom(str + Join(strs, " "), Concat(str, strs), i, j)
  {
    var f := str + Join(strs, " ");
    assert Concat(str, strs) == Trim(Unbracketed(f), ' ');
    TrimUnbracketed(f, Unbracketed(f));
  }

  /** Trimming the bracket-free copy of f cuts one piece out of f, with blanks around it. */
  lemma TrimUnbracketed(f: string, g: string)
    requires |g| == |f| && forall k :: 0 <= k < |f| ==> g[k] == Unbracket(f[k])
    ensures exists i, j :: CutFrom(f, Trim(g, ' '), i, j)
  {
    var r := Trim(g, ' ');
    var i := Lead(g, ' ');
    var j := i + |r|;
    forall k | 0 <= k < |r| ensures r[k] == Unbracket(f[i + k]) {
      assert r[k] == g[i + k];
    }
    forall k | 0 <= k < i ensures Blank(f[k]) {
      assert g[k] == ' ';
    }
    forall k | j <= k < |f| ensures Blank(f[k]) {
      assert g[k] == ' ';
    }
    assert CutFrom(f, r, i, j);
  }

  /** On text without brackets or outer spaces, Concat is plain concatenation with the join. */
  lemma ConcatPlainText(str: string, strs: seq<string>)
    requires var f := str + Join(strs, " ");
             && '[' !in f && ']' !in f && (f == [] || (f[0] != ' ' && f[|f| - 1] != ' '))
    ensures Concat(str, strs) == str + Join(strs, " ")
  {
    var f := str + Join(strs, " ");
    assert Unbracketed(f) == f;
  }

  /** The printed keyword slice closes the gap that Concat leaves after the name. */
  lemma ConcatExample()
    ensures Concat("wave", ["[hand", "hello]"]) == "wave hand hello"
  {
    var f := "wave" + Join(["[hand", "hello]"], " ");
    assert f == "wave[hand hello]";
    var g := Unbracketed(f);
    assert g == "wave hand hello ";
    assert Lead(g, ' ') == 0;
    assert Trail(g, ' ') == 1 by {
      assert g[..|g| - 1] == "wave hand hello";
    }
    assert Trim(g, ' ') == g[..|g| - 1];
  }
}
