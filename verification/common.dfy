/** Vocabulary shared by every part of the relay: optional values, the Go
    string predicates the source relies on, and the "drop every equal entry"
    filter that both backlog stores apply when a record is delivered. */
module Common {

  /** A value that may be absent (Go's "not a record" / "nil error"). */
  datatype Option<+T> = None | Some(value: T)

  /** Concatenation is associative. */
  lemma AppendAssoc<T>(a: seq<T>, b: seq<T>, c: seq<T>)
    ensures a + (b + c) == (a + b) + c
  {
  }

  /** Go's `strings.HasPrefix`. */
  predicate HasPrefix(s: string, prefix: string)
  {
    |prefix| <= |s| && s[..|prefix|] == prefix
  }

  /** Go's `strings.Contains`, scanning `s` from the left. */
  predicate Contains(s: string, sub: string)
    decreases |s|
  {
    HasPrefix(s, sub) || (|s| > 0 && Contains(s[1..], sub))
  }

  /** `sub` occurs in `s` starting at index `i`. */
  ghost predicate OccursAt(s: string, sub: string, i: int)
  {
    0 <= i && i + |sub| <= |s| && s[i..i + |sub|] == sub
  }

  /** The scanning `Contains` agrees with the declarative notion of a
      substring occurrence, in both directions. */
  lemma {:induction false} ContainsMeansOccurs(s: string, sub: string)
    ensures Contains(s, sub) <==> exists i :: OccursAt(s, sub, i)
    decreases |s|
  {
    if HasPrefix(s, sub) {
      assert OccursAt(s, sub, 0);
    } else if |s| == 0 {
      // `sub` is not a prefix of the empty string, so it is non-empty and
      // cannot occur anywhere in it.
    } else {
      ContainsMeansOccurs(s[1..], sub);
      if Contains(s[1..], sub) {
        var i :| OccursAt(s[1..], sub, i);
        assert s[i + 1..i + 1 + |sub|] == s[1..][i..i + |sub|];
        assert OccursAt(s, sub, i + 1);
      }
      if exists i :: OccursAt(s, sub, i) {
        var i :| OccursAt(s, sub, i);
        assert i != 0;
        assert s[1..][i - 1..i - 1 + |sub|] == s[i..i + |sub|];
        assert OccursAt(s[1..], sub, i - 1);
      }
    }
  }

  /** Text appended after an occurrence does not hide it. */
  lemma {:induction false} ContainsAppendRight(a: string, b: string, sub: string)
    requires Contains(a, sub)
    ensures Contains(a + b, sub)
    decreases |a|
  {
    if HasPrefix(a, sub) {
      assert (a + b)[..|sub|] == a[..|sub|];
    } else {
      assert (a + b)[1..] == a[1..] + b;
      ContainsAppendRight(a[1..], b, sub);
    }
  }

  /** Text prepended before an occurrence does not hide it. */
  lemma {:induction false} ContainsAppendLeft(a: string, b: string, sub: string)
    requires Contains(b, sub)
    ensures Contains(a + b, sub)
    decreases |a|
  {
    if |a| == 0 {
      assert a + b == b;
    } else {
      assert (a + b)[1..] == a[1..] + b;
      ContainsAppendLeft(a[1..], b, sub);
    }
  }

  /** Every element of `xs` except those equal to `x`, in their original
      order: a SQL `DELETE ... WHERE adif=?` and the backlog's `Remove`. */
  function RemoveAll<T(==)>(xs: seq<T>, x: T): (r: seq<T>)
    ensures x !in r
    ensures |r| <= |xs|
    ensures x in xs <==> |r| < |xs|
    decreases |xs|
  {
    if |xs| == 0 then []
    else
      var rest := RemoveAll(xs[1..], x);
      if xs[0] == x then rest else [xs[0]] + rest
  }

  /** The filter keeps every other element with its multiplicity. */
  lemma {:induction false} RemoveAllCounts<T>(xs: seq<T>, x: T)
    ensures multiset(RemoveAll(xs, x)) == multiset(xs)[x := 0]
    decreases |xs|
  {
    if |xs| > 0 {
      assert xs == [xs[0]] + xs[1..];
      RemoveAllCounts(xs[1..], x);
    }
  }

  /** Filtering distributes over concatenation: the survivors keep their
      relative order. */
  lemma {:induction false} RemoveAllAppend<T>(a: seq<T>, b: seq<T>, x: T)
    ensures RemoveAll(a + b, x) == RemoveAll(a, x) + RemoveAll(b, x)
    decreases |a|
  {
    if |a| == 0 {
      assert a + b == b;
    } else {
      assert (a + b)[1..] == a[1..] + b;
      RemoveAllAppend(a[1..], b, x);
    }
  }

  /** Filtering one more element. */
  lemma RemoveAllSnoc<T>(xs: seq<T>, e: T, x: T)
    ensures RemoveAll(xs + [e], x) == RemoveAll(xs, x) + (if e == x then [] else [e])
  {
    RemoveAllAppend(xs, [e], x);
    assert [e][1..] == [];
  }

  /** Removing a value that is absent changes nothing. */
  lemma {:induction false} RemoveAbsent<T>(xs: seq<T>, x: T)
    requires x !in xs
    ensures RemoveAll(xs, x) == xs
    decreases |xs|
  {
    if |xs| > 0 {
      RemoveAbsent(xs[1..], x);
    }
  }

  /** The filter keeps only elements of `xs` other than `x`. */
  lemma RemoveAllFrom<T>(xs: seq<T>, x: T, y: T)
    requires y in RemoveAll(xs, x)
    ensures y in xs && y != x
  {
    RemoveAllCounts(xs, x);
    assert multiset(RemoveAll(xs, x))[y] > 0;
  }

  /** Every element other than `x` survives the filter. */
  lemma RemoveAllKeeps<T>(xs: seq<T>, x: T, y: T)
    requires y in xs && y != x
    ensures y in RemoveAll(xs, x)
  {
    RemoveAllCounts(xs, x);
    assert multiset(xs)[y] > 0;
  }
}

/** The HTTP exchange with the logbook service, abstracted to what the three
    upload routines send and inspect. */
module Http {

  /** What the transport produced for one POST: an error from `client.Do`
      (or from building the request), an error while reading the body, or
      the response body text. */
  datatype Response = TransportErr(err: string) | ReadErr(err: string) | Body(text: string)

  /** The form fields of one insert request. */
  type Form = map<string, string>

  /** The form every upload routine builds: `ACTION=INSERT`, the API key
      and the ADIF record. */
  function InsertForm(key: string, adif: string): (f: Form)
    ensures f.Keys == {"ACTION", "KEY", "ADIF"}
    ensures f["ACTION"] == "INSERT" && f["KEY"] == key && f["ADIF"] == adif
  {
    map["ACTION" := "INSERT"]["KEY" := key]["ADIF" := adif]
  }
}
