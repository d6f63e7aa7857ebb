/**
 * `sanitize_payload`: a copy of a JSON-like value in which every string
 * stored in a dict under the key "base64_data" is replaced by the short
 * placeholder "<base64 len=N>", N being the string's length. Everything
 * else keeps its shape, its keys and its order.
 */
module Sanitizer {
  import opened JsonTree
  import Decimal

  const Base64Key: string := "base64_data"
  const PlaceholderPrefix: string := "<base64 len="

  /** The f-string `f"<base64 len={len(value)}>"`. */
  function Placeholder(n: nat): string
  {
    PlaceholderPrefix + Decimal.Show(n) + ">"
  }

  /** The length a placeholder records, if `s` is one. */
  function PlaceholderLength(s: string): Option<nat>
  {
    var p := |PlaceholderPrefix|;
    if |s| >= p + 2 && s[..p] == PlaceholderPrefix && s[|s| - 1] == '>' && Decimal.Canonical(s[p..|s| - 1])
    then Some(Decimal.Value(s[p..|s| - 1]))
    else None
  }

  /** A placeholder records exactly one length, and every length has exactly one placeholder. */
  lemma PlaceholderLengthCorrect(s: string, n: nat)
    ensures PlaceholderLength(s) == Some(n) <==> s == Placeholder(n)
  {
    var p := |PlaceholderPrefix|;
    var ph := Placeholder(n);
    Decimal.ShowIsCanonical(n);
    assert ph[..p] == PlaceholderPrefix;
    assert ph[p..|ph| - 1] == Decimal.Show(n);
    if PlaceholderLength(s) == Some(n) {
      var mid := s[p..|s| - 1];
      Decimal.ShowOfValue(mid);
      assert s == s[..p] + mid + [s[|s| - 1]];
    }
  }

  /** Different lengths give different placeholders, so a placeholder never hides which length it stands for. */
  lemma PlaceholderInjective(m: nat, n: nat)
    requires Placeholder(m) == Placeholder(n)
    ensures m == n
  {
    PlaceholderLengthCorrect(Placeholder(m), m);
    PlaceholderLengthCorrect(Placeholder(n), n);
  }

  /** The value a dict member ends up with: the body of the dict comprehension. */
  function SanitizeMember(key: string, value: Json): Json
    decreases value, 1
  {
    if key == Base64Key && value.Str? then Str(Placeholder(|value.s|)) else Sanitize(value)
  }

  /** `sanitize_payload(obj)`. */
  function Sanitize(j: Json): (r: Json)
    decreases j, 0
    ensures TypeName(r) == TypeName(j)
    ensures IsScalar(j) ==> r == j
    ensures j.List? ==> |r.items| == |j.items|
    ensures j.Object? ==> Keys(r.members) == Keys(j.members)
  {
    match j
    case List(items) =>
      List(seq(|items|, i requires 0 <= i < |items| => Sanitize(items[i])))
    case Object(members) =>
      Object(seq(|members|, i requires 0 <= i < |members| =>
                   (members[i].0, SanitizeMember(members[i].0, members[i].1))))
    case _ => j
  }

  /** Each member of a sanitised dict: the same key at the same position; a "base64_data"
      string becomes the placeholder of its length, any other value is sanitised in turn. */
  lemma SanitizeObjectMember(members: seq<(string, Json)>, i: nat)
    requires i < |members|
    ensures Sanitize(Object(members)).Object?
    ensures |Sanitize(Object(members)).members| == |members|
    ensures Sanitize(Object(members)).members[i].0 == members[i].0
    ensures members[i].0 == Base64Key && members[i].1.Str? ==>
              Sanitize(Object(members)).members[i].1 == Str(Placeholder(|members[i].1.s|)) &&
              PlaceholderLength(Sanitize(Object(members)).members[i].1.s) == Some(|members[i].1.s|)
    ensures !(members[i].0 == Base64Key && members[i].1.Str?) ==>
              Sanitize(Object(members)).members[i].1 == Sanitize(members[i].1)
  {
    if members[i].0 == Base64Key && members[i].1.Str? {
      PlaceholderLengthCorrect(Placeholder(|members[i].1.s|), |members[i].1.s|);
    }
  }

  /** A sanitised list has the same length, each element sanitised where it stood. */
  lemma SanitizeListElement(items: seq<Json>, i: nat)
    requires i < |items|
    ensures Sanitize(List(items)).List?
    ensures |Sanitize(List(items)).items| == |items|
    ensures Sanitize(List(items)).items[i] == Sanitize(items[i])
  {
  }

  /** One step down a value: a list element or a dict member, by position. */
  datatype Step = Index(i: nat) | Member(i: nat)

  function Child(j: Json, step: Step): Option<Json>
  {
    match step
    case Index(i) => if j.List? && i < |j.items| then Some(j.items[i]) else None
    case Member(i) => if j.Object? && i < |j.members| then Some(j.members[i].1) else None
  }

  /** The sub-value reached by following `path` from `j`, if the path exists. */
  function At(j: Json, path: seq<Step>): Option<Json>
    decreases |path|
  {
    if path == [] then Some(j)
    else match Child(j, path[0])
      case None => None
      case Some(c) => At(c, path[1..])
  }

  /** `path` ends at a string stored in a dict under "base64_data". */
  predicate Replaced(j: Json, path: seq<Step>)
    decreases |path|
  {
    if path == [] then false
    else if |path| == 1 then
      path[0].Member? && j.Object? && path[0].i < |j.members| &&
      j.members[path[0].i].0 == Base64Key && j.members[path[0].i].1.Str?
    else match Child(j, path[0])
      case None => false
      case Some(c) => Replaced(c, path[1..])
  }

  /**
   * Sanitising commutes with navigation: the sanitised value has exactly the
   * paths of the original, a path that ends at a "base64_data" string ends at
   * that string's placeholder, and every other path ends at the sanitised
   * sub-value.
   */
  lemma {:induction false} SanitizeAt(j: Json, path: seq<Step>)
    ensures At(Sanitize(j), path).Some? <==> At(j, path).Some?
    ensures Replaced(j, path) ==>
              At(j, path).Some? && At(j, path).value.Str? &&
              At(Sanitize(j), path) == Some(Str(Placeholder(|At(j, path).value.s|)))
    ensures At(j, path).Some? && !Replaced(j, path) ==>
              At(Sanitize(j), path) == Some(Sanitize(At(j, path).value))
    decreases |path|
  {
    if path != [] {
      var step, rest := path[0], path[1..];
      match Child(j, step)
      case None =>
        assert Child(Sanitize(j), step).None?;
      case Some(c) =>
        if step.Member? && j.members[step.i].0 == Base64Key && c.Str? {
          assert Child(Sanitize(j), step) == Some(Str(Placeholder(|c.s|)));
          if rest != [] {
            assert Child(c, rest[0]).None?;
            assert Child(Str(Placeholder(|c.s|)), rest[0]).None?;
            assert At(c, rest).None?;
            assert !Replaced(c, rest);
          }
        } else {
          assert Child(Sanitize(j), step) == Some(Sanitize(c));
          SanitizeAt(c, rest);
        }
    }
  }

  /** A string is changed only where it is stored under "base64_data". */
  lemma StringsKeptOutsideBase64(j: Json, path: seq<Step>, s: string)
    requires At(j, path) == Some(Str(s))
    requires !Replaced(j, path)
    ensures At(Sanitize(j), path) == Some(Str(s))
  {
    SanitizeAt(j, path);
  }

  /** No "base64_data" string is left that is not a placeholder. */
  predicate Redacted(j: Json)
  {
    match j
    case List(items) => forall i :: 0 <= i < |items| ==> Redacted(items[i])
    case Object(members) =>
      forall i :: 0 <= i < |members| ==>
        (members[i].0 == Base64Key && members[i].1.Str? ==> PlaceholderLength(members[i].1.s).Some?) &&
        Redacted(members[i].1)
    case _ => true
  }

  lemma {:induction false} SanitizeRedacts(j: Json)
    ensures Redacted(Sanitize(j))
    decreases j
  {
    match j
    case List(items) =>
      forall i | 0 <= i < |items| ensures Redacted(Sanitize(j).items[i]) {
        SanitizeRedacts(items[i]);
      }
    case Object(members) =>
      var ms := Sanitize(j).members;
      forall i | 0 <= i < |members|
        ensures ms[i].0 == Base64Key && ms[i].1.Str? ==> PlaceholderLength(ms[i].1.s).Some?
        ensures Redacted(ms[i].1)
      {
        assert ms[i] == (members[i].0, SanitizeMember(members[i].0, members[i].1));
        if members[i].0 == Base64Key && members[i].1.Str? {
          PlaceholderLengthCorrect(Placeholder(|members[i].1.s|), |members[i].1.s|);
        } else {
          SanitizeRedacts(members[i].1);
        }
      }
    case _ =>
  }

  /** Sanitising a value whose dicts have distinct keys gives one whose dicts have distinct keys. */
  lemma {:induction false} SanitizeWellFormed(j: Json)
    requires WellFormed(j)
    ensures WellFormed(Sanitize(j))
    decreases j
  {
    match j
    case List(items) =>
      forall i | 0 <= i < |items| ensures WellFormed(Sanitize(j).items[i]) {
        SanitizeWellFormed(items[i]);
      }
    case Object(members) =>
      var ms := Sanitize(j).members;
      forall i | 0 <= i < |members| ensures WellFormed(ms[i].1) {
        assert ms[i] == (members[i].0, SanitizeMember(members[i].0, members[i].1));
        if !(members[i].0 == Base64Key && members[i].1.Str?) {
          SanitizeWellFormed(members[i].1);
        }
      }
      assert Keys(ms) == Keys(members);
      forall i, k | 0 <= i < k < |ms| ensures ms[i].0 != ms[k].0 {
        assert ms[i].0 == Keys(ms)[i] && ms[k].0 == Keys(ms)[k];
      }
    case _ =>
  }

  /** `sanitize_payload(d).get(key)`: the sanitised member value under `key`, if `d` has that key. */
  lemma {:induction false} GetSanitized(members: seq<(string, Json)>, key: string)
    ensures Get(Sanitize(Object(members)).members, key) ==
              match Get(members, key)
              case None => None
              case Some(v) => Some(SanitizeMember(key, v))
    decreases |members|
  {
    if members != [] {
      var ms := Sanitize(Object(members)).members;
      assert ms[0] == (members[0].0, SanitizeMember(members[0].0, members[0].1));
      if members[0].0 != key {
        GetSanitized(members[1..], key);
        assert ms[1..] == Sanitize(Object(members[1..])).members;
      }
    }
  }
}
