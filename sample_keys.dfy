/** The storage key of a face sample: the file name enrollment writes
    (`user_<id>_<count>.jpg`) and the parse training applies to it (keep
    names ending in `.jpg`, split on '_', int() of the second field). */
module SampleKeys {

  import opened Options
  import opened Decimal

  const Separator: char := '_'
  const Extension: string := ".jpg"
  const Prefix: string := "user"

  predicate Free(s: string, sep: char) {
    forall k :: 0 <= k < |s| ==> s[k] != sep
  }

  /** str.split(sep): every occurrence of sep ends a field, empty fields kept. */
  function Split(s: string, sep: char): (parts: seq<string>)
    ensures |parts| >= 1
  {
    if s == [] then [""]
    else
      var rest := Split(s[1..], sep);
      if s[0] == sep then [""] + rest else [[s[0]] + rest[0]] + rest[1..]
  }

  /** sep.join(parts), the inverse of Split. */
  function Join(parts: seq<string>, sep: char): string
    requires |parts| >= 1
  {
    if |parts| == 1 then parts[0] else parts[0] + [sep] + Join(parts[1..], sep)
  }

  /** Gluing a prefix onto the first field of a join. */
  lemma {:induction false} JoinConsFirst(x: string, parts: seq<string>, sep: char)
    requires |parts| >= 1
    ensures Join([x + parts[0]] + parts[1..], sep) == x + Join(parts, sep)
  {
    var glued := [x + parts[0]] + parts[1..];
    if |parts| > 1 {
      assert glued[1..] == parts[1..];
    }
  }

  /** Split cuts s into separator-free fields that join back to s. */
  lemma {:induction false} SplitJoin(s: string, sep: char)
    ensures Join(Split(s, sep), sep) == s
    ensures forall i :: 0 <= i < |Split(s, sep)| ==> Free(Split(s, sep)[i], sep)
  {
    if s != [] {
      var rest := Split(s[1..], sep);
      SplitJoin(s[1..], sep);
      if s[0] == sep {
        assert ([""] + rest)[1..] == rest;
        assert s == [sep] + s[1..];
      } else {
        JoinConsFirst([s[0]], rest, sep);
        assert s == [s[0]] + s[1..];
        var parts := Split(s, sep);
        forall i | 0 <= i < |parts| ensures Free(parts[i], sep) {
          if i > 0 { assert parts[i] == rest[i]; }
        }
      }
    }
  }

  /** A separator-free prefix becomes part of the first field. */
  lemma {:induction false} SplitFreePrefix(a: string, t: string, sep: char)
    requires Free(a, sep)
    ensures Split(a + t, sep) == [a + Split(t, sep)[0]] + Split(t, sep)[1..]
  {
    if a != [] {
      SplitFreePrefix(a[1..], t, sep);
      var st := Split(t, sep);
      var rest := Split((a + t)[1..], sep);
      assert (a + t)[1..] == a[1..] + t;
      assert rest[0] == a[1..] + st[0] && rest[1..] == st[1..];
      assert [a[0]] + rest[0] == a + st[0];
    } else {
      var st := Split(t, sep);
      assert a + t == t && a + st[0] == st[0];
      assert st == [st[0]] + st[1..];
    }
  }

  /** A separator-free field followed by the separator splits off whole. */
  lemma SplitField(a: string, b: string, sep: char)
    requires Free(a, sep)
    ensures Split(a + [sep] + b, sep) == [a] + Split(b, sep)
  {
    SplitFreePrefix(a, [sep] + b, sep);
    assert ([sep] + b)[1..] == b;
    assert Split([sep] + b, sep) == [""] + Split(b, sep);
    assert a + "" == a;
    assert a + [sep] + b == a + ([sep] + b);
  }

  /** A separator-free string splits to itself alone. */
  lemma SplitWhole(a: string, sep: char)
    requires Free(a, sep)
    ensures Split(a, sep) == [a]
  {
    SplitFreePrefix(a, "", sep);
    assert a + "" == a;
  }

  /** str.endswith(suffix). */
  predicate EndsWith(s: string, suffix: string) {
    |s| >= |suffix| && s[|s| - |suffix|..] == suffix
  }

  /** The file name enrollment writes for the count-th face of user_id. */
  function SampleName(userId: string, count: nat): (name: string)
    ensures EndsWith(name, Extension)
  {
    Prefix + [Separator] + userId + [Separator] + NatToDecimal(count) + Extension
  }

  /** int(filename.split("_")[1]); None for the IndexError or ValueError
      that training catches and skips. */
  function ParseLabel(filename: string): Option<int> {
    var parts := Split(filename, Separator);
    if |parts| < 2 then None else ParseInt(parts[1])
  }

  /** The names training keeps: `.jpg` names whose label parses. */
  predicate IsTrainingSample(filename: string) {
    EndsWith(filename, Extension) && ParseLabel(filename).Some?
  }

  /** The counter field `<count>.jpg` holds no separator. */
  lemma CounterFieldFree(count: nat)
    ensures Free(NatToDecimal(count) + Extension, Separator)
  {
    var d := NatToDecimal(count);
    var tail := d + Extension;
    forall k | 0 <= k < |tail| ensures tail[k] != Separator {
      if k < |d| {
        assert tail[k] == d[k] && IsDigit(d[k]);
      } else {
        assert tail[k] == Extension[k - |d|];
      }
    }
  }

  /** Three separator-free fields joined by the separator split apart again. */
  lemma SplitThree(a: string, b: string, c: string, sep: char)
    requires Free(a, sep) && Free(b, sep) && Free(c, sep)
    ensures Split(a + [sep] + b + [sep] + c, sep) == [a, b, c]
  {
    SplitWhole(c, sep);
    SplitField(b, c, sep);
    SplitField(a, b + [sep] + c, sep);
    assert a + [sep] + b + [sep] + c == a + [sep] + (b + [sep] + c);
  }

  /** For a user_id without '_', a sample name splits into exactly the
      prefix, the user_id and the counter followed by the extension. */
  lemma SampleNameFields(userId: string, count: nat)
    requires Free(userId, Separator)
    ensures Split(SampleName(userId, count), Separator)
         == [Prefix, userId, NatToDecimal(count) + Extension]
  {
    var tail := NatToDecimal(count) + Extension;
    CounterFieldFree(count);
    assert Free(Prefix, Separator);
    assert SampleName(userId, count) == Prefix + [Separator] + userId + [Separator] + tail;
    SplitThree(Prefix, userId, tail, Separator);
  }

  /** The label read back from a sample name is int(user_id): for a user_id
      without '_' the name round-trips through training's parse. */
  lemma SampleNameLabel(userId: string, count: nat)
    requires Free(userId, Separator)
    ensures ParseLabel(SampleName(userId, count)) == ParseInt(userId)
    ensures IsTrainingSample(SampleName(userId, count)) <==> ParseInt(userId).Some?
  {
    SampleNameFields(userId, count);
  }

  /** Name round trip for an id written in canonical decimal. */
  lemma SampleNameRoundTrip(id: int, count: nat)
    ensures IsTrainingSample(SampleName(IntToDecimal(id), count))
    ensures ParseLabel(SampleName(IntToDecimal(id), count)) == Some(id)
  {
    var u := IntToDecimal(id);
    assert Free(u, Separator) by {
      if id < 0 {
        forall k | 0 <= k < |u| ensures u[k] != Separator {
          if k > 0 { assert u[k] == NatToDecimal(-id)[k - 1]; }
        }
      }
    }
    SampleNameLabel(u, count);
    ParseIntOfIntToDecimal(id);
  }

  /** Strings that agree on a common prefix and a common suffix agree on
      what lies between. */
  lemma CancelAround(p: string, x: string, y: string, e: string)
    requires p + x + e == p + y + e
    ensures x == y
  {
    assert |x| == |y|;
    assert x == (p + x + e)[|p|..|p| + |x|];
    assert y == (p + y + e)[|p|..|p| + |y|];
  }

  /** Within one user_id, distinct counters give distinct file names. */
  lemma SampleNameInjective(userId: string, i: nat, j: nat)
    ensures SampleName(userId, i) == SampleName(userId, j) ==> i == j
  {
    if SampleName(userId, i) == SampleName(userId, j) {
      var p := Prefix + [Separator] + userId + [Separator];
      CancelAround(p, NatToDecimal(i), NatToDecimal(j), Extension);
      NatToDecimalInjective(i, j);
    }
  }

  /** A user_id containing '_' is cut at its first '_' when training reads
      the label back: the samples of "a_b" are trained under int(a). */
  lemma UnderscoreIdLabel(a: string, b: string, count: nat)
    requires Free(a, Separator)
    ensures ParseLabel(SampleName(a + [Separator] + b, count)) == ParseInt(a)
  {
    var tail := b + [Separator] + NatToDecimal(count) + Extension;
    assert Free(Prefix, Separator);
    assert SampleName(a + [Separator] + b, count) == Prefix + [Separator] + (a + [Separator] + tail);
    SplitField(a, tail, Separator);
    SplitField(Prefix, a + [Separator] + tail, Separator);
  }

  /** The samples enrolled as "5_6" are labelled 5. */
  lemma UnderscoreIdExample(count: nat)
    ensures ParseLabel(SampleName("5_6", count)) == Some(5)
  {
    assert "5_6" == "5" + [Separator] + "6";
    UnderscoreIdLabel("5", "6", count);
    assert DigitsValue("5") == 5 by {
      assert "5"[..0] == "";
    }
  }

}
