/** The cipher tables: a key written first, the alphabet written after it with each key letter taken back. */
module KeyTable {

  ghost predicate Distinct(s: string) {
    forall i, j :: 0 <= i < j < |s| ==> s[i] != s[j]
  }

  ghost predicate Drawn(key: string, alphabet: string) {
    Distinct(key) && Distinct(alphabet) && forall k :: 0 <= k < |key| ==> key[k] in alphabet
  }

  /** The letters of s that the key does not use, in order. */
  function Minus(s: string, key: string): string {
    if s == "" then ""
    else if s[0] in key then Minus(s[1..], key)
    else [s[0]] + Minus(s[1..], key)
  }

  lemma {:induction false} MinusAppend(s: string, c: char, key: string)
    ensures Minus(s + [c], key) == Minus(s, key) + if c in key then "" else [c]
    decreases |s|
  {
    if s == "" {
      assert s + [c] == [c] && [c][1..] == "";
    } else {
      assert (s + [c])[0] == s[0] && (s + [c])[1..] == s[1..] + [c];
      MinusAppend(s[1..], c, key);
    }
  }

  ghost predicate Ascending(s: string) {
    forall i, j :: 0 <= i < j < |s| ==> s[i] < s[j]
  }

  /** The letters of an alphabet in order stay in order. */
  lemma {:induction false} MinusAscending(s: string, key: string)
    requires Ascending(s)
    ensures Ascending(Minus(s, key)) && forall c :: c in Minus(s, key) <==> c in s && c !in key
    decreases |s|
  {
    if s != "" {
      var r := s[1..];
      AscendingTail(s, r);
      MinusAscending(r, key);
      Ahead(s[0], Minus(r, key));
    }
  }

  lemma AscendingTail(s: string, r: string)
    requires s != "" && r == s[1..] && Ascending(s)
    ensures Ascending(r) && (forall c :: c in r ==> s[0] < c) && forall c :: c in s <==> c == s[0] || c in r
  {
    assert forall i :: 0 <= i < |r| ==> r[i] == s[i + 1];
    assert s == [s[0]] + r;
  }

  lemma Ahead(c: char, m: string)
    requires Ascending(m) && forall d :: d in m ==> c < d
    ensures Ascending([c] + m)
  {
    var a := [c] + m;
    assert forall i :: 0 <= i < |m| ==> m[i] in m;
    forall i, j | 0 <= i < j < |a| ensures a[i] < a[j] {
      assert a[j] == m[j - 1];
    }
  }

  lemma {:induction false} MinusCount(s: string, key: string, c: char)
    ensures multiset(Minus(s, key))[c] == if c in key then 0 else multiset(s)[c]
    decreases |s|
  {
    if s != "" {
      assert s == [s[0]] + s[1..];
      MinusCount(s[1..], key, c);
    }
  }

  lemma {:induction false} DistinctCount(s: string, c: char)
    requires Distinct(s)
    ensures multiset(s)[c] == if c in s then 1 else 0
    decreases |s|
  {
    if s != "" {
      var r := s[1..];
      assert s == [s[0]] + r;
      assert forall i :: 0 <= i < |r| ==> r[i] == s[i + 1];
      DistinctCount(r, c);
    }
  }

  lemma {:induction false} CountDistinct(s: string)
    requires forall c :: multiset(s)[c] <= 1
    ensures Distinct(s)
    decreases |s|
  {
    if s != "" {
      var r := s[1..];
      assert s == [s[0]] + r;
      forall c
        ensures multiset(r)[c] <= 1
      {
        assert multiset(s)[c] <= 1;
      }
      CountDistinct(r);
      assert s[0] !in r by {
        assert multiset(s)[s[0]] == 1 + multiset(r)[s[0]];
        assert multiset(r)[s[0]] == 0;
      }
      assert forall i :: 0 < i < |s| ==> s[i] == r[i - 1];
    }
  }

  /** The table is the alphabet rearranged: every letter once. */
  lemma TableIsPermutation(key: string, alphabet: string)
    requires Drawn(key, alphabet)
    ensures multiset(key + Minus(alphabet, key)) == multiset(alphabet)
    ensures |key + Minus(alphabet, key)| == |alphabet| && Distinct(key + Minus(alphabet, key))
  {
    var table := key + Minus(alphabet, key);
    forall c: char
      ensures multiset(table)[c] == multiset(alphabet)[c] <= 1
    {
      MinusCount(alphabet, key, c);
      DistinctCount(key, c);
      DistinctCount(alphabet, c);
    }
    assert multiset(table) == multiset(alphabet);
    assert |multiset(table)| == |table| && |multiset(alphabet)| == |alphabet|;
    CountDistinct(table);
  }

  /** The part of the table that stands when the first m letters of the alphabet are placed. */
  function Placed(key: string, alphabet: string, m: nat): string
    requires m <= |alphabet|
  {
    key + Minus(alphabet[..m], key)
  }

  lemma PlacedNext(key: string, alphabet: string, m: nat)
    requires m < |alphabet|
    ensures Placed(key, alphabet, m + 1) == Placed(key, alphabet, m) + if alphabet[m] in key then "" else [alphabet[m]]
  {
    assert alphabet[..m + 1] == alphabet[..m] + [alphabet[m]];
    MinusAppend(alphabet[..m], alphabet[m], key);
  }

  lemma PlacedAll(key: string, alphabet: string)
    ensures Placed(key, alphabet, 0) == key && Placed(key, alphabet, |alphabet|) == key + Minus(alphabet, key)
  {
    assert alphabet[..|alphabet|] == alphabet;
  }

  /** It never reaches past the alphabet's length. */
  lemma {:induction false} PlacedFits(key: string, alphabet: string, m: nat)
    requires Drawn(key, alphabet) && m <= |alphabet|
    ensures |Placed(key, alphabet, m)| <= |alphabet|
    decreases |alphabet| - m
  {
    if m == |alphabet| {
      TableIsPermutation(key, alphabet);
      PlacedAll(key, alphabet);
    } else {
      PlacedFits(key, alphabet, m + 1);
      PlacedNext(key, alphabet, m);
    }
  }

  /** Writes letter m of the alphabet behind the table's part that stands, and takes it back if the key has it. */
  method PlaceLetter(key: string, alphabet: string, m: nat, at: nat, offset: int, table: array<char>) returns (r: int)
    requires Drawn(key, alphabet) && m < |alphabet| < table.Length
    requires at == |Placed(key, alphabet, m)| && at <= |alphabet| && table[..at] == Placed(key, alphabet, m)
    modifies table
    ensures r <= offset && at + 1 + (r - offset) == |Placed(key, alphabet, m + 1)| <= |alphabet|
    ensures table[..at + 1 + (r - offset)] == Placed(key, alphabet, m + 1)
    ensures forall k :: |alphabet| < k < table.Length ==> table[k] == old(table[k])
  {
    PlacedFits(key, alphabet, m + 1);
    PlacedNext(key, alphabet, m);
    table[at] := alphabet[m];
    r := TakeBack(key, alphabet[m], offset);
    assert table[..at + 1] == table[..at] + [alphabet[m]];
  }

  method WriteKey(key: string, table: array<char>)
    requires |key| <= table.Length
    modifies table
    ensures table[..|key|] == key && forall k :: |key| <= k < table.Length ==> table[k] == old(table[k])
  {
    for i := 0 to |key|
      invariant table[..i] == key[..i]
      invariant forall k :: i <= k < table.Length ==> table[k] == old(table[k])
    {
      table[i] := key[i];
    }
  }

  /** generatemorsetable: each letter is written behind the last one kept and taken back if the key has it. */
  method GenerateMorseTable(key: string, alphabet: string, table: array<char>)
    requires Drawn(key, alphabet) && table.Length > |alphabet|
    modifies table
    ensures table[..|alphabet|] == key + Minus(alphabet, key)
  {
    PlacedAll(key, alphabet);
    PlacedFits(key, alphabet, 0);
    WriteKey(key, table);
    var offset := 0;
    for i := |key| to |key| + |alphabet|
      invariant i + offset == |Placed(key, alphabet, i - |key|)| <= |alphabet|
      invariant table[..i + offset] == Placed(key, alphabet, i - |key|)
    {
      offset := PlaceLetter(key, alphabet, i - |key|, i + offset, offset, table);
    }
    TableIsPermutation(key, alphabet);
  }

  /** The inner loop: one step back for every key letter equal to c. */
  method TakeBack(key: string, c: char, offset: int) returns (r: int)
    requires Distinct(key)
    ensures r == if c in key then offset - 1 else offset
  {
    r := offset;
    for j := 0 to |key|
      invariant r == if c in key[..j] then offset - 1 else offset
    {
      if c == key[j] {
        r := r - 1;
      }
    }
  }

  // ---------- the Polybius table ----------

  /** Letters of the alphabet the loop over the table's cells gets to. */
  function Reached(key: string, alphabet: string, cells: nat): nat {
    if cells <= |key| then 0 else if cells - |key| < |alphabet| then cells - |key| else |alphabet|
  }

  /** The first n cells are kept. */
  ghost predicate Standing(cells: string, n: int, kept: string) {
    n == |kept| <= |cells| && cells[..n] == kept
  }

  /** kept is followed by zeros up to cell n. */
  ghost predicate Closed(cells: string, n: int, kept: string) {
    |kept| < n <= |cells| && cells[..|kept|] == kept && forall k :: |kept| <= k < n ==> cells[k] == '\0'
  }

  method ClearCell(table: array<char>, at: nat, ghost kept: string)
    requires at < table.Length && (Standing(table[..], at, kept) || Closed(table[..], at, kept))
    modifies table
    ensures Closed(table[..], at + 1, kept)
    ensures forall k :: at < k < table.Length ==> table[k] == old(table[k])
  {
    ghost var was := table[..];
    table[at] := '\0';
    assert table[..] == was[at := '\0'];
    assert table[..][..|kept|] == was[..|kept|];
  }

  /** What holds before turn i: the letters so far stand, or all of them and zeros behind them. */
  ghost predicate Turned(key: string, alphabet: string, i: nat, offset: int, ended: bool, cells: string)
    requires |key| <= i
  {
    && ended == (i > |key| + |alphabet|) && offset <= 0
    && (!ended ==> Standing(cells, i + offset, Placed(key, alphabet, i - |key|)) && i + offset <= |alphabet|)
    && (ended ==> offset == -|key| && Closed(cells, i + offset, Placed(key, alphabet, |alphabet|)))
  }

  /** One turn of the loop. */
  method Turn(key: string, alphabet: string, i: nat, offset: int, ended: bool, table: array<char>)
    returns (r: int, done: bool)
    requires Drawn(key, alphabet) && |key| <= i < table.Length && |alphabet| < table.Length
    requires Turned(key, alphabet, i, offset, ended, table[..])
    modifies table
    ensures Turned(key, alphabet, i + 1, r, done, table[..])
    ensures forall k :: |alphabet| < k < table.Length && i - |key| < k ==> table[k] == old(table[k])
  {
    PlacedAll(key, alphabet);
    TableIsPermutation(key, alphabet);
    r, done := offset, ended;
    if ended || i - |key| == |alphabet| {
      done := true;
      ClearCell(table, i + offset, Placed(key, alphabet, |alphabet|));
    } else {
      assert table[..][..i + offset] == table[..i + offset];
      r := PlaceLetter(key, alphabet, i - |key|, i + offset, offset, table);
      assert table[..][..i + 1 + r] == table[..i + 1 + r];
    }
  }

  /** generatepolybiustable: the same, but the loop ends with the table's cells. Once the alphabet is through, the
      cells behind it are cleared, as many as the loop still gets to; those further on stay as they were. */
  method GeneratePolybiusTable(key: string, alphabet: string, cells: nat, table: array<char>)
    requires Drawn(key, alphabet) && |alphabet| <= cells < table.Length
    modifies table
    ensures var kept := Placed(key, alphabet, Reached(key, alphabet, cells));
            |kept| <= cells && table[..|kept|] == kept
    ensures |key| + |alphabet| < cells ==> forall k :: |alphabet| <= k < cells - |key| ==> table[k] == '\0'
    ensures forall k :: |alphabet| < k < table.Length && cells - |key| <= k ==> table[k] == old(table[k])
  {
    PlacedAll(key, alphabet);
    PlacedFits(key, alphabet, 0);
    WriteKey(key, table);
    var offset, ended := 0, false;
    assert table[..][..|key|] == table[..|key|];
    for i := |key| to cells
      invariant Turned(key, alphabet, i, offset, ended, table[..])
      invariant forall k :: |alphabet| < k < table.Length && i - |key| <= k ==> table[k] == old(table[k])
    {
      offset, ended := Turn(key, alphabet, i, offset, ended, table);
    }
    TurnedAll(key, alphabet, cells, offset, ended, table[..]);
    assert forall n :: 0 <= n <= table.Length ==> table[..][..n] == table[..n];
  }

  lemma TurnedAll(key: string, alphabet: string, cells: nat, offset: int, ended: bool, table: string)
    requires Drawn(key, alphabet) && |alphabet| <= cells < |table| && |key| <= cells
    requires Turned(key, alphabet, cells, offset, ended, table)
    ensures var kept := Placed(key, alphabet, Reached(key, alphabet, cells));
            |kept| <= cells && table[..|kept|] == kept
    ensures |key| + |alphabet| < cells ==> forall k :: |alphabet| <= k < cells - |key| ==> table[k] == '\0'
  {
    PlacedAll(key, alphabet);
    TableIsPermutation(key, alphabet);
  }

  /** The table holds the whole alphabet exactly when the key has every letter the loop does not get to;
      enough cells for the key and the alphabet together always suffice. */
  lemma PolybiusComplete(key: string, alphabet: string, cells: nat)
    requires Drawn(key, alphabet) && |alphabet| <= cells
    ensures var m := Reached(key, alphabet, cells);
            multiset(Placed(key, alphabet, m)) == multiset(alphabet) <==>
              forall k :: m <= k < |alphabet| ==> alphabet[k] in key
    ensures |key| + |alphabet| <= cells ==> Reached(key, alphabet, cells) == |alphabet|
  {
    var m := Reached(key, alphabet, cells);
    var table := Placed(key, alphabet, m);
    TableIsPermutation(key, alphabet);
    if forall k :: m <= k < |alphabet| ==> alphabet[k] in key {
      MinusRest(alphabet, key, m);
    } else {
      var k :| m <= k < |alphabet| && alphabet[k] !in key;
      MinusCount(alphabet[..m], key, alphabet[k]);
      assert alphabet[k] !in alphabet[..m];
      assert multiset(table)[alphabet[k]] == 0 && alphabet[k] in multiset(alphabet);
    }
  }

  /** Which letters the table has: those of the key, and of the alphabet as many as there are cells behind the key. */
  lemma PolybiusLetters(key: string, alphabet: string, cells: nat)
    requires Drawn(key, alphabet) && |alphabet| <= cells
    ensures forall k :: 0 <= k < |alphabet| ==>
              (alphabet[k] in Placed(key, alphabet, Reached(key, alphabet, cells)) <==>
                 alphabet[k] in key || k < cells - |key|)
  {
    var m := Reached(key, alphabet, cells);
    forall k | 0 <= k < |alphabet|
      ensures alphabet[k] in Placed(key, alphabet, m) <==> alphabet[k] in key || k < m
    {
      MinusCount(alphabet[..m], key, alphabet[k]);
      assert alphabet[k] in Minus(alphabet[..m], key) <==> multiset(Minus(alphabet[..m], key))[alphabet[k]] > 0;
      assert alphabet[k] in alphabet[..m] <==> k < m;
    }
  }

  lemma {:induction false} MinusRest(s: string, key: string, m: nat)
    requires m <= |s| && forall k :: m <= k < |s| ==> s[k] in key
    ensures Minus(s[..m], key) == Minus(s, key)
    decreases |s| - m
  {
    if m == |s| {
      assert s[..m] == s;
    } else {
      MinusRest(s, key, m + 1);
      assert s[..m + 1] == s[..m] + [s[m]];
      MinusAppend(s[..m], s[m], key);
    }
  }
}
