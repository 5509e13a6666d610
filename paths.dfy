/**
 * Dotted paths. Every accessor of the nested mapping turns its key into a
 * list of keys with Python's `key.split(".")`, which keeps empty segments:
 * "" gives [""], "a..b" gives ["a", "", "b"] and "a." gives ["a", ""].
 */
module Paths {

  /** A single key: a segment of a dotted path never contains the separator. */
  predicate IsSegment(k: string) {
    '.' !in k
  }

  /** Glues keys back together with "." between consecutive keys. */
  function Join(keys: seq<string>): (s: string)
    requires |keys| >= 1
    decreases |keys|
  {
    if |keys| == 1 then keys[0] else keys[0] + "." + Join(keys[1..])
  }

  /** `s.split(".")`: the maximal dot-free pieces of `s`, empty ones included. */
  function Split(s: string): (keys: seq<string>)
    ensures |keys| >= 1
    ensures forall i :: 0 <= i < |keys| ==> IsSegment(keys[i])
    ensures Join(keys) == s
    decreases |s|
  {
    if s == [] then [""]
    else
      var rest := Split(s[1..]);
      if s[0] == '.' then
        assert Join([""] + rest) == "" + "." + Join(rest) by {
          assert ([""] + rest)[1..] == rest;
        }
        [""] + rest
      else
        var keys := [[s[0]] + rest[0]] + rest[1..];
        assert Join(keys) == [s[0]] + Join(rest) by {
          if |rest| > 1 {
            assert keys[1..] == rest[1..];
          }
        }
        keys
  }

  /** A dot-free string is a path of one key. */
  lemma SplitSegment(k: string)
    requires IsSegment(k)
    ensures Split(k) == [k]
  {
  }

  /** The first "." of `k + "." + s` ends the first key. */
  lemma {:induction false} SplitAfterSegment(k: string, s: string)
    requires IsSegment(k)
    ensures Split(k + "." + s) == [k] + Split(s)
    decreases |k|
  {
    var whole := k + "." + s;
    if k == [] {
      assert whole[1..] == s;
    } else {
      assert whole[0] == k[0] != '.';
      assert whole[1..] == k[1..] + "." + s;
      SplitAfterSegment(k[1..], s);
      assert [k[0]] + k[1..] == k;
    }
  }

  /** Splitting undoes joining: a dotted path names exactly one list of keys. */
  lemma {:induction false} SplitJoin(keys: seq<string>)
    requires |keys| >= 1
    requires forall i :: 0 <= i < |keys| ==> IsSegment(keys[i])
    ensures Split(Join(keys)) == keys
    decreases |keys|
  {
    if |keys| == 1 {
      SplitSegment(keys[0]);
    } else {
      SplitJoin(keys[1..]);
      SplitAfterSegment(keys[0], Join(keys[1..]));
    }
  }

  /** Empty segments survive: "a..b" names the keys "a", "" and "b"; "" names the key "". */
  lemma SplitKeepsEmptySegments()
    ensures Split("a..b") == ["a", "", "b"]
    ensures Split("") == [""]
  {
    assert "b"[1..] == "" && Split("b") == ["b"];
    assert ".b"[1..] == "b" && Split(".b") == ["", "b"];
    assert "..b"[1..] == ".b" && Split("..b") == ["", "", "b"];
    assert "a..b"[1..] == "..b" && ['a'] + "" == "a";
    assert Split("a..b") == [['a'] + ""] + ["", "b"];
  }
}
