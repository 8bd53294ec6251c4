/**
 * JavaScript object values as the registry builder handles them before they
 * are serialised: strings, arrays, objects with ordered keys, and
 * `undefined` for a property that is present but has no value.
 */
module Json {

  import opened Wrappers

  datatype Value = Str(s: string) | Arr(elems: seq<Value>) | Obj(members: seq<Member>) | Undefined

  datatype Member = Member(key: string, value: Value)

  /** `Object.keys(o)`: the keys in insertion order. */
  function Keys(members: seq<Member>): (keys: seq<string>)
    ensures |keys| == |members|
    ensures forall i :: 0 <= i < |members| ==> keys[i] == members[i].key
  {
    seq(|members|, i requires 0 <= i < |members| => members[i].key)
  }

  /**
   * The members left once every key whose value is `undefined` is deleted:
   * the others, in their order.
   */
  function Defined(members: seq<Member>): (r: seq<Member>)
    ensures |r| <= |members|
  {
    if |members| == 0 then []
    else (if members[0].value.Undefined? then [] else [members[0]]) + Defined(members[1..])
  }

  /** `o[key]`, or `None` when `o` has no such key. */
  function Get(members: seq<Member>, key: string): Option<Value>
  {
    if |members| == 0 then None
    else if members[0].key == key then Some(members[0].value)
    else Get(members[1..], key)
  }

  /**
   * `{...o, [key]: v}`: an existing key keeps its place and takes the new
   * value; a new key goes last.
   */
  function Assign(members: seq<Member>, key: string, v: Value): seq<Member>
  {
    if |members| == 0 then [Member(key, v)]
    else if members[0].key == key then [Member(key, v)] + members[1..]
    else [members[0]] + Assign(members[1..], key, v)
  }

  lemma {:induction false} DefinedConcat(a: seq<Member>, b: seq<Member>)
    ensures Defined(a + b) == Defined(a) + Defined(b)
  {
    if |a| > 0 {
      assert (a + b)[1..] == a[1..] + b;
      DefinedConcat(a[1..], b);
    } else {
      assert a + b == b;
    }
  }
  /** Deleting the undefined keys keeps exactly the members that have a value. */
  lemma {:induction false} DefinedMembers(members: seq<Member>)
    ensures forall m :: m in Defined(members) <==> m in members && !m.value.Undefined?
  {
    if |members| > 0 {
      DefinedMembers(members[1..]);
      assert members == [members[0]] + members[1..];
    }
  }

  /** An object without undefined values is left as it is. */
  lemma {:induction false} DefinedOfDefined(members: seq<Member>)
    requires forall i :: 0 <= i < |members| ==> !members[i].value.Undefined?
    ensures Defined(members) == members
  {
    if |members| > 0 {
      DefinedOfDefined(members[1..]);
      assert members == [members[0]] + members[1..];
    }
  }

  /**
   * Spreading an object and then setting one of its keys keeps the keys and
   * their order, changes that key's value and no other.
   */
  lemma {:induction false} AssignExisting(members: seq<Member>, key: string, v: Value)
    requires key in Keys(members)
    ensures Keys(Assign(members, key, v)) == Keys(members)
    ensures Get(Assign(members, key, v), key) == Some(v)
    ensures forall other :: other != key ==> Get(Assign(members, key, v), other) == Get(members, other)
  {
    if members[0].key != key {
      assert key in Keys(members[1..]) by {
        var i :| 0 <= i < |members| && Keys(members)[i] == key;
        assert Keys(members[1..])[i - 1] == key;
      }
      AssignExisting(members[1..], key, v);
    }
    assert ([members[0]] + members[1..])[1..] == members[1..];
  }
  lemma KeysConcat(a: seq<Member>, b: seq<Member>)
    ensures Keys(a + b) == Keys(a) + Keys(b)
  {
  }

  /** Looking a key up skips the members before it that have other keys. */
  lemma {:induction false} GetSkip(a: seq<Member>, b: seq<Member>, key: string)
    requires key !in Keys(a)
    ensures Get(a + b, key) == Get(b, key)
  {
    if |a| > 0 {
      assert Keys(a)[0] == a[0].key;
      assert key !in Keys(a[1..]) by {
        forall i | 0 <= i < |a| - 1 ensures Keys(a[1..])[i] != key {
          assert Keys(a[1..])[i] == Keys(a)[i + 1];
        }
      }
      assert (a + b)[1..] == a[1..] + b;
      GetSkip(a[1..], b, key);
    } else {
      assert a + b == b;
    }
  }
}
