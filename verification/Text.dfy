/** Small string helpers shared by the models. */
module Text {

  datatype Option<+T> = None | Some(value: T)

  /** The index of the last occurrence of `c`, or -1. */
  function LastIndexOf(s: string, c: char): (r: int)
    ensures -1 <= r < |s|
    ensures r >= 0 ==> s[r] == c
    ensures forall j | r < j < |s| :: s[j] != c
  {
    if s == "" then -1
    else if s[|s| - 1] == c then |s| - 1
    else LastIndexOf(s[..|s| - 1], c)
  }

  // ---------------------------------------------------------------------------------------------
  // Letter case
  // ---------------------------------------------------------------------------------------------

  function LowerChar(c: char): char {
    if 'A' <= c <= 'Z' then c - 'A' + 'a' else c
  }

  /** Lower case, of the letters A to Z alone. */
  function Lower(s: string): (r: string)
    ensures |r| == |s|
    ensures forall i | 0 <= i < |s| :: r[i] == LowerChar(s[i])
  {
    if s == "" then "" else [LowerChar(s[0])] + Lower(s[1..])
  }

  lemma LowerConcat(s: string, t: string)
    ensures Lower(s + t) == Lower(s) + Lower(t)
  {
  }

  predicate SameName(s: string, t: string) {
    Lower(s) == Lower(t)
  }

  /** `a` is the capital of the letter `b`: in ASCII, 32 before it. */
  predicate CapitalOf(a: char, b: char) {
    'A' <= a <= 'Z' && 'a' <= b <= 'z' && b as int == a as int + 32
  }

  /** Two names are the same exactly if each letter of one is that of the other, in the same case or not. */
  lemma {:induction false} SameNameLetters(s: string, t: string)
    ensures SameName(s, t) <==>
            |s| == |t| && forall i | 0 <= i < |s| :: s[i] == t[i] || CapitalOf(s[i], t[i]) || CapitalOf(t[i], s[i])
  {
    forall i | 0 <= i < |s| && i < |t|
      ensures LowerChar(s[i]) == LowerChar(t[i]) <==>
              s[i] == t[i] || CapitalOf(s[i], t[i]) || CapitalOf(t[i], s[i])
    {
      assert LowerChar(s[i]) as int == if 'A' <= s[i] <= 'Z' then s[i] as int + 32 else s[i] as int;
      assert LowerChar(t[i]) as int == if 'A' <= t[i] <= 'Z' then t[i] as int + 32 else t[i] as int;
    }
    if SameName(s, t) {
      assert forall i | 0 <= i < |s| :: Lower(s)[i] == Lower(t)[i];
    }
  }

  // ---------------------------------------------------------------------------------------------
  // Lists in strings
  // ---------------------------------------------------------------------------------------------

  /** QStringList::join. */
  function JoinWith(list: seq<string>, sep: char): string {
    if list == [] then ""
    else if |list| == 1 then list[0]
    else list[0] + [sep] + JoinWith(list[1..], sep)
  }

  /** QString::split, keeping empty parts: there is always at least one part. */
  function SplitAt(s: string, sep: char): (r: seq<string>)
    ensures r != [] && forall p | p in r :: sep !in p
  {
    if s == "" then [""]
    else if s[0] == sep then [""] + SplitAt(s[1..], sep)
    else
      var rest := SplitAt(s[1..], sep);
      [[s[0]] + rest[0]] + rest[1..]
  }

  function NonEmpty(list: seq<string>): (r: seq<string>)
    ensures forall p :: p in r <==> p != "" && p in list
  {
    if list == [] then []
    else (if list[0] != "" then [list[0]] else []) + NonEmpty(list[1..])
  }

  lemma {:induction false} SplitPrefix(p: string, s: string, sep: char)
    requires sep !in p
    ensures SplitAt(p + s, sep) == [p + SplitAt(s, sep)[0]] + SplitAt(s, sep)[1..]
  {
    var parts := SplitAt(s, sep);
    if p == "" {
      assert p + s == s && p + parts[0] == parts[0];
      assert parts == [parts[0]] + parts[1..];
    } else {
      SplitPrefix(p[1..], s, sep);
      assert (p + s)[1..] == p[1..] + s;
      assert [p[0]] + (p[1..] + parts[0]) == p + parts[0];
    }
  }

  /** Splitting what was joined gives the list back, except that nothing comes back as one empty part. */
  lemma {:induction false} SplitJoined(list: seq<string>, sep: char)
    requires forall p | p in list :: sep !in p
    ensures SplitAt(JoinWith(list, sep), sep) == if list == [] then [""] else list
  {
    if |list| == 1 {
      SplitPrefix(list[0], "", sep);
      assert list[0] + "" == list[0];
      assert list == [list[0]];
    } else if |list| > 1 {
      SplitJoined(list[1..], sep);
      var rest := JoinWith(list[1..], sep);
      SplitPrefix(list[0], [sep] + rest, sep);
      assert list[0] + [sep] + rest == list[0] + ([sep] + rest);
      assert ([sep] + rest)[1..] == rest;
      assert SplitAt([sep] + rest, sep) == [""] + list[1..];
      assert list[0] + "" == list[0] && list == [list[0]] + list[1..];
    }
  }

  predicate StartsWith(s: string, prefix: string) {
    |prefix| <= |s| && s[..|prefix|] == prefix
  }
}
