/**
 * The credential records the extension receives from its credential store,
 * and the flattening of the store's credential object into a list.
 */
module Credentials {
  import opened Wrappers

  /**
   * One stored credential. `url` is a regular-expression source string.
   * The user name and password are byte strings (the characters `btoa`
   * accepts). `priority` is the numeric value of the record's priority
   * property, None when it is absent or not a number.
   */
  datatype Credential = Credential(url: string, username: seq<Byte>, password: seq<Byte>, priority: Option<int>)

  /**
   * One property that a `for...in` loop over the credential object
   * enumerates, in enumeration order. `own` is false for a property that is
   * inherited rather than held by the object itself.
   */
  datatype Property = Property(key: string, value: Credential, own: bool)

  /** The values of the object's own properties, in enumeration order. */
  function OwnValues(props: seq<Property>): (r: seq<Credential>)
    ensures |r| <= |props|
    ensures forall c :: c in r <==> exists i :: 0 <= i < |props| && props[i].own && props[i].value == c
  {
    if props == [] then []
    else
      var rest := OwnValues(props[1..]);
      assert forall i :: 1 <= i < |props| ==> props[i] == props[1..][i - 1];
      if props[0].own then [props[0].value] + rest else rest
  }

  /** Every enumerated property is an own one: the list is the values, in order. */
  lemma {:induction false} OwnValuesAllOwn(props: seq<Property>)
    requires forall i :: 0 <= i < |props| ==> props[i].own
    ensures |OwnValues(props)| == |props|
    ensures forall i :: 0 <= i < |props| ==> OwnValues(props)[i] == props[i].value
  {
    if props != [] {
      OwnValuesAllOwn(props[1..]);
    }
  }

  /** Taking own values of a prefix extended by one property extends the list by at most that value. */
  lemma OwnValuesSnoc(props: seq<Property>, p: Property)
    ensures OwnValues(props + [p]) == OwnValues(props) + (if p.own then [p.value] else [])
    decreases |props|
  {
    if props == [] {
      assert [p][1..] == [];
    } else {
      assert (props + [p])[1..] == props[1..] + [p];
      OwnValuesSnoc(props[1..], p);
    }
  }

  /**
   * The `for...in` loop with its `hasOwnProperty` filter: pushes the value of
   * every own property onto the list, in enumeration order.
   */
  method CredentialList(props: seq<Property>) returns (list: seq<Credential>)
    ensures list == OwnValues(props)
    ensures forall c :: c in list ==> exists i :: 0 <= i < |props| && props[i].own && props[i].value == c
  {
    list := [];
    var k := 0;
    while k < |props|
      invariant 0 <= k <= |props|
      invariant list == OwnValues(props[..k])
    {
      OwnValuesSnoc(props[..k], props[k]);
      assert props[..k + 1] == props[..k] + [props[k]];
      if props[k].own {
        list := list + [props[k].value];
      }
      k := k + 1;
    }
    assert props[..k] == props;
  }
}
