/** String.prototype.split with a one-character separator. */
module Splitting {
  import Decimal

  function Split(s: string, separator: char): (parts: seq<string>)
    ensures |parts| > 0
  {
    if s == "" then [""]
    else if s[0] == separator then [""] + Split(s[1..], separator)
    else
      var rest := Split(s[1..], separator);
      [[s[0]] + rest[0]] + rest[1..]
  }

  lemma {:induction false} SplitOne(a: string, separator: char)
    requires separator !in a
    ensures Split(a, separator) == [a]
  {
    if a != "" {
      assert separator !in a[1..];
      SplitOne(a[1..], separator);
      assert [a[0]] + a[1..] == a;
    }
  }

  lemma {:induction false} SplitFirst(a: string, b: string, separator: char)
    requires separator !in a
    ensures Split(a + [separator] + b, separator) == [a] + Split(b, separator)
  {
    var s := a + [separator] + b;
    if a == "" {
      assert s == [separator] + b && s[1..] == b;
    } else {
      assert separator !in a[1..];
      SplitFirst(a[1..], b, separator);
      assert s[1..] == a[1..] + [separator] + b;
      assert [a[0]] + a[1..] == a;
      assert ([a[1..]] + Split(b, separator))[1..] == Split(b, separator);
    }
  }

  /** prefix_i_t comes apart into the prefix and the two numbers. */
  lemma SplitNumbers(prefix: string, i: nat, t: nat)
    requires '_' !in prefix
    ensures Split(prefix + "_" + Decimal.ToString(i) + "_" + Decimal.ToString(t), '_')
         == [prefix, Decimal.ToString(i), Decimal.ToString(t)]
  {
    var first, second := Decimal.ToString(i), Decimal.ToString(t);
    assert '_' !in first && '_' !in second;
    assert prefix + "_" + first + "_" + second == prefix + ['_'] + (first + ['_'] + second);
    SplitFirst(prefix, first + ['_'] + second, '_');
    SplitFirst(first, second, '_');
    SplitOne(second, '_');
  }

  /** The parts put together again. */
  function Join(parts: seq<string>, separator: char): string
    requires |parts| > 0
  {
    if |parts| == 1 then parts[0] else parts[0] + [separator] + Join(parts[1..], separator)
  }

  /** Splitting loses nothing and leaves no separator: the parts, joined, are the string. */
  lemma {:induction false} SplitJoins(s: string, separator: char)
    ensures Join(Split(s, separator), separator) == s
    ensures forall k :: 0 <= k < |Split(s, separator)| ==> separator !in Split(s, separator)[k]
  {
    if s != "" {
      SplitJoins(s[1..], separator);
      assert s == [s[0]] + s[1..];
      var rest := Split(s[1..], separator);
      if s[0] == separator {
        assert ([""] + rest)[1..] == rest;
      } else {
        assert ([[s[0]] + rest[0]] + rest[1..])[1..] == rest[1..];
      }
    }
  }
}
