/** The `data-test-id` of each checkbox: a facet prefix and the entry's value
    with every '.' and every ' ' removed, `value.replace(/\.| /g, '')`. */
module TestIds {
  import opened Text

  /** The characters the regular expression `/\.| /g` matches. */
  predicate Stripped(c: char)
  {
    c == '.' || c == ' '
  }

  /** `value.replace(/\.| /g, '')` */
  function StripDotsAndSpaces(value: string): (r: string)
    ensures |r| <= |value|
    ensures forall k :: 0 <= k < |r| ==> !Stripped(r[k])
  {
    if value == [] then []
    else
      var rest := StripDotsAndSpaces(value[1..]);
      if Stripped(value[0]) then rest
      else
        assert forall k :: 1 <= k < |rest| + 1 ==> ([value[0]] + rest)[k] == rest[k - 1];
        [value[0]] + rest
  }

  /** The suffix keeps the other characters in their order ... */
  lemma {:induction false} StripIsSubseq(value: string)
    ensures IsSubseq(StripDotsAndSpaces(value), value)
    decreases |value|
  {
    if value != [] {
      StripIsSubseq(value[1..]);
      var rest := StripDotsAndSpaces(value[1..]);
      if !Stripped(value[0]) {
        assert ([value[0]] + rest)[1..] == rest;
      }
    }
  }

  /** ... and every one of them, as often as the value has it. */
  lemma {:induction false} StripKeepsOthers(value: string, c: char)
    requires !Stripped(c)
    ensures multiset(StripDotsAndSpaces(value))[c] == multiset(value)[c]
    decreases |value|
  {
    if value != [] {
      StripKeepsOthers(value[1..], c);
      assert value == [value[0]] + value[1..];
    }
  }

  /** Stripping distributes over concatenation. */
  lemma {:induction false} StripAppend(s: string, t: string)
    ensures StripDotsAndSpaces(s + t) == StripDotsAndSpaces(s) + StripDotsAndSpaces(t)
    decreases |s|
  {
    if s == [] {
      assert s + t == t;
    } else {
      assert (s + t)[0] == s[0] && (s + t)[1..] == s[1..] + t;
      StripAppend(s[1..], t);
    }
  }

  /** The test id of a type checkbox. */
  function TypeTestId(value: string): (id: string)
    ensures |id| >= 5 && id[..5] == "type-" && id[5..] == StripDotsAndSpaces(value)
    ensures forall k :: 5 <= k < |id| ==> !Stripped(id[k])
    ensures IsSubseq(id[5..], value)
    ensures forall c :: !Stripped(c) ==> multiset(id[5..])[c] == multiset(value)[c]
  {
    StripIsSubseq(value);
    forall c | !Stripped(c) ensures multiset(StripDotsAndSpaces(value))[c] == multiset(value)[c] {
      StripKeepsOthers(value, c);
    }
    var id := "type-" + StripDotsAndSpaces(value);
    assert id[5..] == StripDotsAndSpaces(value);
    id
  }

  /** The test id of a tag checkbox. */
  function TagTestId(value: string): (id: string)
    ensures |id| >= 4 && id[..4] == "tag-" && id[4..] == StripDotsAndSpaces(value)
    ensures forall k :: 4 <= k < |id| ==> !Stripped(id[k])
    ensures IsSubseq(id[4..], value)
    ensures forall c :: !Stripped(c) ==> multiset(id[4..])[c] == multiset(value)[c]
  {
    StripIsSubseq(value);
    forall c | !Stripped(c) ensures multiset(StripDotsAndSpaces(value))[c] == multiset(value)[c] {
      StripKeepsOthers(value, c);
    }
    var id := "tag-" + StripDotsAndSpaces(value);
    assert id[4..] == StripDotsAndSpaces(value);
    id
  }

  /** A value is its own test-id suffix exactly when it holds no '.' and no ' '. */
  lemma {:induction false} StripIsIdentityIff(value: string)
    ensures StripDotsAndSpaces(value) == value <==> forall k :: 0 <= k < |value| ==> !Stripped(value[k])
    decreases |value|
  {
    if value != [] {
      StripIsIdentityIff(value[1..]);
      var rest := StripDotsAndSpaces(value[1..]);
      assert forall k :: 1 <= k < |value| ==> value[k] == value[1..][k - 1];
      if Stripped(value[0]) {
        assert |rest| <= |value[1..]| < |value|;
      } else {
        assert StripDotsAndSpaces(value) == [value[0]] + rest;
        assert ([value[0]] + rest == value) <==> (rest == value[1..]);
      }
    }
  }

  /** Stripping is idempotent. */
  lemma StripIdempotent(value: string)
    ensures StripDotsAndSpaces(StripDotsAndSpaces(value)) == StripDotsAndSpaces(value)
  {
    StripIsIdentityIff(StripDotsAndSpaces(value));
  }

  /** Removing one '.' or ' ' from a value does not change its suffix. */
  lemma StripDropsOne(p: string, c: char, q: string)
    requires Stripped(c)
    ensures StripDotsAndSpaces(p + [c] + q) == StripDotsAndSpaces(p + q)
  {
    StripAppend(p + [c], q);
    StripAppend(p, [c]);
    StripAppend(p, q);
    assert StripDotsAndSpaces([c]) == [];
  }

  /** "node.js", "node js" and "nodejs" lose their differences when stripped. */
  lemma StripNodeJs()
    ensures StripDotsAndSpaces("node.js") == StripDotsAndSpaces("nodejs")
    ensures StripDotsAndSpaces("node js") == StripDotsAndSpaces("nodejs")
  {
    assert "node.js" == "node" + ['.'] + "js" && "node js" == "node" + [' '] + "js";
    assert "nodejs" == "node" + "js";
    StripDropsOne("node", '.', "js");
    StripDropsOne("node", ' ', "js");
  }

  /** Test ids are not unique: "node.js", "node js" and "nodejs" give the same one. */
  lemma TestIdsCollide()
    ensures TagTestId("node.js") == TagTestId("nodejs")
    ensures TypeTestId("node js") == TypeTestId("nodejs")
  {
    StripNodeJs();
    var t, u := TagTestId("node.js"), TagTestId("nodejs");
    assert t == t[..4] + t[4..] && u == u[..4] + u[4..];
    var v, w := TypeTestId("node js"), TypeTestId("nodejs");
    assert v == v[..5] + v[5..] && w == w[..5] + w[5..];
  }
}
