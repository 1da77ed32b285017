/** The JavaScript string built-ins the colour converters rely on:
    `String.prototype.split(",")`, `String.prototype.substring` and
    `String.prototype.replace` with a one-character pattern. */
module JsStrings {

  const Comma: char := ','

  /** The fields of `s` separated by commas, as `s.split(",")` returns them:
      never empty, and `""` splits into the single field `""`. */
  function Split(s: string): (fields: seq<string>)
    ensures |fields| >= 1
  {
    if |s| == 0 then [""]
    else
      var rest := Split(s[1..]);
      if s[0] == Comma then [""] + rest
      else [[s[0]] + rest[0]] + rest[1..]
  }

  /** `fields.join(",")`: the inverse of `Split` on comma-free fields. */
  function Join(fields: seq<string>): string
    requires |fields| >= 1
  {
    if |fields| == 1 then fields[0] else fields[0] + [Comma] + Join(fields[1..])
  }

  predicate CommaFree(fields: seq<string>) {
    forall i :: 0 <= i < |fields| ==> Comma !in fields[i]
  }

  /** No field contains a comma. */
  lemma {:induction false} SplitFieldsCommaFree(s: string)
    ensures CommaFree(Split(s))
  {
    if |s| > 0 {
      SplitFieldsCommaFree(s[1..]);
      var rest := Split(s[1..]);
      if s[0] != Comma {
        assert Comma !in [s[0]] + rest[0];
      }
    }
  }

  /** Joining the fields of `s` gives back `s`. */
  lemma {:induction false} JoinSplit(s: string)
    ensures Join(Split(s)) == s
  {
    if |s| > 0 {
      JoinSplit(s[1..]);
      var rest := Split(s[1..]);
      if s[0] == Comma {
        assert ([""] + rest)[1..] == rest;
      } else if |rest| > 1 {
        assert ([[s[0]] + rest[0]] + rest[1..])[1..] == rest[1..];
      }
    }
  }

  /** `s` has one field more than it has commas. */
  lemma {:induction false} SplitFieldCount(s: string)
    ensures |Split(s)| == multiset(s)[Comma] + 1
  {
    if |s| > 0 {
      SplitFieldCount(s[1..]);
      assert s == [s[0]] + s[1..];
      assert multiset(s) == multiset([s[0]]) + multiset(s[1..]);
    }
  }

  /** A text without commas is a single field. */
  lemma {:induction false} SplitCommaFree(f: string)
    requires Comma !in f
    ensures Split(f) == [f]
  {
    if |f| > 0 {
      assert f == [f[0]] + f[1..];
      SplitCommaFree(f[1..]);
    }
  }

  /** One step of `Split`: a leading comma opens a new field, any other
      character extends the first field. */
  lemma SplitCons(c: char, t: string)
    ensures Split([c] + t) == if c == Comma then [""] + Split(t) else [[c] + Split(t)[0]] + Split(t)[1..]
  {
    assert ([c] + t)[0] == c && ([c] + t)[1..] == t;
  }

  /** A comma-free first field is split off whole at the first comma. */
  lemma {:induction false} SplitFirstField(f: string, b: string)
    requires Comma !in f
    ensures Split(f + [Comma] + b) == [f] + Split(b)
  {
    if |f| == 0 {
      assert f + [Comma] + b == [Comma] + b;
      SplitCons(Comma, b);
    } else {
      var t := f[1..] + [Comma] + b;
      assert f + [Comma] + b == [f[0]] + t;
      SplitFirstField(f[1..], b);
      SplitCons(f[0], t);
      assert [f[0]] + f[1..] == f;
    }
  }

  /** Splitting undoes joining comma-free fields. */
  lemma {:induction false} SplitJoin(fields: seq<string>)
    requires |fields| >= 1 && CommaFree(fields)
    ensures Split(Join(fields)) == fields
  {
    if |fields| == 1 {
      SplitCommaFree(fields[0]);
    } else {
      SplitJoin(fields[1..]);
      SplitFirstField(fields[0], Join(fields[1..]));
      assert fields == [fields[0]] + fields[1..];
    }
  }

  /** Joining two runs of fields puts one comma between them. */
  lemma {:induction false} JoinAppend(fs: seq<string>, gs: seq<string>)
    requires |fs| >= 1 && |gs| >= 1
    ensures Join(fs + gs) == Join(fs) + [Comma] + Join(gs)
  {
    if |fs| == 1 {
      assert (fs + gs)[1..] == gs;
    } else {
      JoinAppend(fs[1..], gs);
      assert (fs + gs)[1..] == fs[1..] + gs;
    }
  }

  /** A comma splits the text into the fields before it and the fields after it. */
  lemma SplitAppend(a: string, b: string)
    ensures Split(a + [Comma] + b) == Split(a) + Split(b)
  {
    var fa, fb := Split(a), Split(b);
    JoinSplit(a);
    JoinSplit(b);
    JoinAppend(fa, fb);
    SplitFieldsCommaFree(a);
    SplitFieldsCommaFree(b);
    CommaFreeAppend(fa, fb);
    SplitJoin(fa + fb);
  }

  lemma CommaFreeAppend(fs: seq<string>, gs: seq<string>)
    requires CommaFree(fs) && CommaFree(gs)
    ensures CommaFree(fs + gs)
  {
    forall i | 0 <= i < |fs + gs|
      ensures Comma !in (fs + gs)[i]
    {
      if i < |fs| { assert (fs + gs)[i] == fs[i]; } else { assert (fs + gs)[i] == gs[i - |fs|]; }
    }
  }

  function Min(a: int, b: int): int {
    if a <= b then a else b
  }

  /** `s.substring(start, end)`: both indexes are clamped to the length of
      `s` and swapped when `start > end`. */
  function Substring(s: string, start: nat, end: nat): (r: string)
    ensures |r| <= if start <= end then end - start else start - end
    ensures start <= end <= |s| ==> r == s[start..end]
    ensures Min(start, end) >= |s| ==> r == ""
    ensures start <= end && start <= |s| ==> r == s[start..Min(end, |s|)]
  {
    var lo := Min(Min(start, end), |s|);
    var hi := Min(if start <= end then end else start, |s|);
    s[lo..hi]
  }

  /** `s.replace(c, "")` for a one-character pattern: deletes the first
      occurrence of `c`, wherever it stands, and nothing else. */
  function RemoveFirst(s: string, c: char): string
  {
    if |s| == 0 then s
    else if s[0] == c then s[1..]
    else [s[0]] + RemoveFirst(s[1..], c)
  }

  /** One character goes when it occurs, none otherwise. */
  lemma {:induction false} RemoveFirstLength(s: string, c: char)
    ensures |RemoveFirst(s, c)| == if c in s then |s| - 1 else |s|
  {
    if |s| > 0 {
      RemoveFirstLength(s[1..], c);
      assert s == [s[0]] + s[1..];
    }
  }

  /** Without an occurrence, nothing is removed. */
  lemma {:induction false} RemoveFirstAbsent(s: string, c: char)
    requires c !in s
    ensures RemoveFirst(s, c) == s
  {
    if |s| > 0 {
      RemoveFirstAbsent(s[1..], c);
      assert s == [s[0]] + s[1..];
    }
  }

  /** Otherwise exactly the first occurrence is cut out. */
  lemma {:induction false} RemoveFirstCutsFirst(a: string, b: string, c: char)
    requires c !in a
    ensures RemoveFirst(a + [c] + b, c) == a + b
  {
    if |a| == 0 {
      assert a + [c] + b == [c] + b;
      RemoveFirstCons(c, b, c);
    } else {
      var x, a' := a[0], a[1..];
      assert a == [x] + a';
      assert x != c && c !in a';
      var t := a' + [c] + b;
      calc {
        RemoveFirst(a + [c] + b, c);
        { assert a + [c] + b == [x] + t; }
        RemoveFirst([x] + t, c);
        { RemoveFirstCons(x, t, c); }
        [x] + RemoveFirst(t, c);
        { RemoveFirstCutsFirst(a', b, c); }
        [x] + (a' + b);
        a + b;
      }
    }
  }

  /** One step of `RemoveFirst`. */
  lemma RemoveFirstCons(x: char, t: string, c: char)
    ensures RemoveFirst([x] + t, c) == if x == c then t else [x] + RemoveFirst(t, c)
  {
    assert ([x] + t)[0] == x && ([x] + t)[1..] == t;
  }
}
