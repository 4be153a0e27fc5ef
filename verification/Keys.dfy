/** Shared vocabulary: byte texts, the (time, id) order of the SQL queries
    ("ORDER BY started_at DESC, id DESC") and the newest row of a set. */
module Keys {

  datatype Option<+T> = None | Some(value: T)

  type Byte = i: int | 0 <= i < 256

  /** Ids and encoded texts are byte strings. */
  type Text = seq<Byte>

  /** Byte-wise (binary collation) order of two ids. */
  predicate TextLess(a: Text, b: Text) {
    if b == [] then false
    else if a == [] then true
    else a[0] < b[0] || (a[0] == b[0] && TextLess(a[1..], b[1..]))
  }

  /** The position of a row in the lists: its time, ties by id. */
  datatype Key = Key(at: int, id: Text)

  predicate Less(a: Key, b: Key) {
    a.at < b.at || (a.at == b.at && TextLess(a.id, b.id))
  }

  lemma {:induction false} TextLessTransitive(a: Text, b: Text, c: Text)
    requires TextLess(a, b) && TextLess(b, c)
    ensures TextLess(a, c)
  {
    if a != [] && a[0] == b[0] == c[0] {
      TextLessTransitive(a[1..], b[1..], c[1..]);
    }
  }

  lemma {:induction false} TextLessTrichotomy(a: Text, b: Text)
    ensures TextLess(a, b) ==> !TextLess(b, a) && a != b
    ensures TextLess(a, b) || TextLess(b, a) || a == b
  {
    if a != [] && b != [] {
      TextLessTrichotomy(a[1..], b[1..]);
      if a[0] == b[0] && a[1..] == b[1..] {
        assert a == [a[0]] + a[1..] && b == [b[0]] + b[1..];
      }
    }
  }

  /** Less is a strict total order on keys: transitive and trichotomous. */
  lemma LessTransitive(a: Key, b: Key, c: Key)
    requires Less(a, b) && Less(b, c)
    ensures Less(a, c)
  {
    if a.at == b.at == c.at {
      TextLessTransitive(a.id, b.id, c.id);
    }
  }

  lemma LessTrichotomy(a: Key, b: Key)
    ensures Less(a, b) ==> !Less(b, a) && a != b
    ensures Less(a, b) || Less(b, a) || a == b
  {
    TextLessTrichotomy(a.id, b.id);
  }

  /** The byte-wise order: a is a proper prefix of b, or has the smaller byte at
      the first difference. */
  lemma {:induction false} TextLessMeans(a: Text, b: Text)
    ensures TextLess(a, b) <==>
      || (|a| < |b| && a == b[..|a|])
      || exists i :: 0 <= i < |a| && i < |b| && a[..i] == b[..i] && a[i] < b[i]
  {
    if a != [] && b != [] {
      forall i | 0 < i <= |a| && i <= |b| && a[..i] == b[..i] ensures a[0] == b[0] {
        HeadOfPrefix(a, b, i);
      }
      assert a[..0] == b[..0];
      if a[0] == b[0] {
        TextLessMeans(a[1..], b[1..]);
        FirstDifferenceShifts(a, b);
        PrefixShifts(a, b);
      } else {
        assert a[..|a|] == a;
      }
    }
  }

  lemma HeadOfPrefix(a: Text, b: Text, i: nat)
    requires 0 < i <= |a| && i <= |b| && a[..i] == b[..i]
    ensures a[0] == b[0]
  {
    assert a[..i][0] == a[0] && b[..i][0] == b[0];
  }

  lemma PrefixShifts(a: Text, b: Text)
    requires a != [] && b != [] && a[0] == b[0]
    ensures |a| < |b| && a == b[..|a|] <==> |a[1..]| < |b[1..]| && a[1..] == b[1..][..|a[1..]|]
  {
    if |a| < |b| {
      assert b[..|a|] == [b[0]] + b[1..][..|a| - 1] && a == [a[0]] + a[1..];
    }
  }

  lemma FirstDifferenceShifts(a: Text, b: Text)
    requires a != [] && b != [] && a[0] == b[0]
    ensures (exists i :: 0 <= i < |a| && i < |b| && a[..i] == b[..i] && a[i] < b[i]) <==>
      (exists i :: 0 <= i < |a[1..]| && i < |b[1..]| && a[1..][..i] == b[1..][..i] && a[1..][i] < b[1..][i])
  {
    if i :| 0 <= i < |a| && i < |b| && a[..i] == b[..i] && a[i] < b[i] {
      assert a[1..][..i - 1] == a[..i][1..] && b[1..][..i - 1] == b[..i][1..];
      assert a[1..][i - 1] < b[1..][i - 1];
    }
    if i :| 0 <= i < |a[1..]| && i < |b[1..]| && a[1..][..i] == b[1..][..i] && a[1..][i] < b[1..][i] {
      assert a[..i + 1] == [a[0]] + a[1..][..i] && b[..i + 1] == [b[0]] + b[1..][..i];
      assert a[i + 1] < b[i + 1];
    }
  }

  /** Earlier times are less, whatever the ids; equal times compare the ids. */
  lemma LessMeans(a: Key, b: Key)
    ensures a.at < b.at ==> Less(a, b)
    ensures a.at > b.at ==> !Less(a, b)
    ensures a.at == b.at ==> (Less(a, b) <==> TextLess(a.id, b.id))
  {}

  /** k is the newest key of s. */
  ghost predicate IsGreatest(s: set<Key>, k: Key) {
    k in s && forall x :: x in s && x != k ==> Less(x, k)
  }

  lemma {:induction false} GreatestExists(s: set<Key>)
    requires s != {}
    ensures exists k :: IsGreatest(s, k)
  {
    var x :| x in s;
    if s == {x} {
      assert IsGreatest(s, x);
    } else {
      var rest := s - {x};
      assert rest != {} by { assert s == rest + {x}; }
      GreatestExists(rest);
      var g :| IsGreatest(rest, g);
      LessTrichotomy(x, g);
      if Less(x, g) {
        assert IsGreatest(s, g);
      } else {
        forall y | y in s && y != x ensures Less(y, x) {
          if y != g { LessTransitive(y, g, x); }
        }
        assert IsGreatest(s, x);
      }
    }
  }

  /** The newest key of a set, as "ORDER BY ... LIMIT 1" returns it. */
  ghost function Greatest(s: set<Key>): (k: Key)
    requires s != {}
    ensures IsGreatest(s, k)
  {
    GreatestExists(s);
    var k :| IsGreatest(s, k);
    k
  }
}
