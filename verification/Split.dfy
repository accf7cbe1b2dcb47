/** Splitting text at a separator byte, as Rust's `str::split` does: the empty
    text has one empty part, and every separator starts a new part. */
module Split {
  import opened Utf8

  function Parts(s: Text, sep: Byte): (parts: seq<Text>)
    ensures |parts| > 0
    decreases |s|
  {
    if s == [] then [[]]
    else
      var rest := Parts(s[1..], sep);
      if s[0] == sep then [[]] + rest
      else [[s[0]] + rest[0]] + rest[1..]
  }

  function Join(parts: seq<Text>, sep: Byte): Text
    requires |parts| > 0
  {
    if |parts| == 1 then parts[0]
    else parts[0] + [sep] + Join(parts[1..], sep)
  }

  lemma {:induction false} JoinOfParts(s: Text, sep: Byte)
    ensures Join(Parts(s, sep), sep) == s
    ensures forall p :: p in Parts(s, sep) ==> sep !in p
    decreases |s|
  {
    if s != [] {
      JoinOfParts(s[1..], sep);
      var rest := Parts(s[1..], sep);
      if s[0] == sep {
        assert Parts(s, sep)[1..] == rest;
      } else {
        assert Parts(s, sep)[1..] == rest[1..];
        assert Join(Parts(s, sep), sep) == [s[0]] + Join(rest, sep);
      }
    }
  }

  lemma {:induction false} PartsOfSingle(s: Text, sep: Byte)
    requires sep !in s
    ensures Parts(s, sep) == [s]
    decreases |s|
  {
    if s != [] {
      PartsOfSingle(s[1..], sep);
      assert s == [s[0]] + s[1..];
    }
  }

  /** A separator-free front, then a separator, then anything. */
  lemma {:induction false} PartsOfFront(front: Text, rest: Text, sep: Byte)
    requires sep !in front
    ensures Parts(front + [sep] + rest, sep) == [front] + Parts(rest, sep)
    decreases |front|
  {
    var s := front + [sep] + rest;
    if front == [] {
      assert s[1..] == rest;
    } else {
      assert s[1..] == front[1..] + [sep] + rest;
      PartsOfFront(front[1..], rest, sep);
      assert front == [front[0]] + front[1..];
    }
  }

  lemma {:induction false} PartsOfJoin(parts: seq<Text>, sep: Byte)
    requires |parts| > 0 && forall p :: p in parts ==> sep !in p
    ensures Parts(Join(parts, sep), sep) == parts
  {
    if |parts| == 1 {
      PartsOfSingle(parts[0], sep);
    } else {
      PartsOfJoin(parts[1..], sep);
      PartsOfFront(parts[0], Join(parts[1..], sep), sep);
    }
  }

  /** Splitting a concatenation at a separator splits each side on its own. */
  lemma {:induction false} PartsOfConcat(a: Text, b: Text, sep: Byte)
    ensures Parts(a + [sep] + b, sep) == Parts(a, sep) + Parts(b, sep)
    decreases |a|
  {
    var s := a + [sep] + b;
    if a == [] {
      assert s[1..] == b;
    } else {
      assert s[1..] == a[1..] + [sep] + b;
      PartsOfConcat(a[1..], b, sep);
    }
  }
}
