/** The private-message client: the form fields that address a message to
    user ids, the failure check on the reply, and the splitting of the
    recipient list into batches of at most `maxRecipients`. */
module PmClient {
  import opened Js
  import opened Text
  import opened PhpbbClient

  /** How many recipients one message goes to when the caller gives no limit. */
  const DefaultMaxRecipients := 8

  /** The address-list field name before the user id. */
  const AddressPrefix := "address_list[u]"

  /** What a send throws when the reply still shows the compose form. */
  const SendFailure := "Failed to send message successfully."

  /** `PMDestination`. */
  datatype Dest = To | Bcc

  /** The string the form carries for a destination. */
  function DestName(d: Dest): string {
    match d
    case To => "to"
    case Bcc => "bcc"
  }

  /** The form field that addresses user `c`: `address_list[u][c]`. */
  function AddressKey(c: Num): string {
    AddressPrefix + "[" + NumToString(c) + "]"
  }

  /** `parseAddress` reads back the user id of its address field. */
  lemma AddressKeyRoundTrip(c: Num)
    ensures ParseAddress(AddressKey(c)) == c
  {
    NumTextAvoids(c, '[');
    NumTextAvoids(c, ']');
    ParseAddressOf(AddressPrefix, NumToString(c));
    ToNumberOfNumToString(c);
  }

  /** Different users get different address fields. */
  lemma AddressKeyInjective(a: Num, b: Num)
    ensures AddressKey(a) == AddressKey(b) <==> a == b
  {
    AddressKeyRoundTrip(a);
    AddressKeyRoundTrip(b);
  }

  /** `mapToAddressList`: each id's address field set to the destination. */
  function MapToAddressList(ids: seq<Num>, dest: Dest): (m: map<string, Dest>)
    ensures m.Keys == set i | 0 <= i < |ids| :: AddressKey(ids[i])
    ensures forall k :: k in m ==> m[k] == dest
    decreases |ids|
  {
    if ids == [] then map[]
    else
      var front := ids[..|ids| - 1];
      assert forall i :: 0 <= i < |front| ==> front[i] == ids[i];
      MapToAddressList(front, dest)[AddressKey(Last(ids)) := dest]
  }

  /** The address field of a user is there exactly when the user is listed. */
  lemma AddressListed(ids: seq<Num>, dest: Dest, c: Num)
    ensures AddressKey(c) in MapToAddressList(ids, dest) <==> c in ids
  {
    if AddressKey(c) in MapToAddressList(ids, dest) {
      var i :| 0 <= i < |ids| && AddressKey(ids[i]) == AddressKey(c);
      AddressKeyInjective(ids[i], c);
    }
    if c in ids {
      var i :| 0 <= i < |ids| && ids[i] == c;
      assert AddressKey(ids[i]) in MapToAddressList(ids, dest);
    }
  }

  /** The address part of the body `send` posts: the `to` fields spread
      first, the `bcc` fields after them. */
  function AddressFields(to: seq<Num>, bcc: seq<Num>): map<string, Dest> {
    MapToAddressList(to, To) + MapToAddressList(bcc, Bcc)
  }

  /** A user in `bcc` is sent a blind copy even when also in `to`; a user only
      in `to` is a plain recipient; nobody else is addressed. */
  lemma BccWins(to: seq<Num>, bcc: seq<Num>, c: Num)
    ensures AddressKey(c) in AddressFields(to, bcc) <==> c in to || c in bcc
    ensures c in bcc ==> AddressFields(to, bcc)[AddressKey(c)] == Bcc
    ensures c in to && c !in bcc ==> AddressFields(to, bcc)[AddressKey(c)] == To
  {
    AddressListed(to, To, c);
    AddressListed(bcc, Bcc, c);
  }

  /** The hidden inputs that echo an address list back on the compose page. */
  function AddressInputs(ids: seq<Num>, dest: Dest): (inputs: seq<Input>)
    ensures |inputs| == |ids|
    ensures forall i :: 0 <= i < |ids| ==> inputs[i] == Input(AddressKey(ids[i]), DestName(dest))
  {
    seq(|ids|, i requires 0 <= i < |ids| => Input(AddressKey(ids[i]), DestName(dest)))
  }

  /** The dictionary of an echoed address list: the address fields in order,
      each holding the destination's name. */
  lemma AddressDict(ids: seq<Num>, dest: Dest)
    requires forall i, j :: 0 <= i < j < |ids| ==> ids[i] != ids[j]
    ensures var d := NameToValue(AddressInputs(ids, dest));
      && |d.keys| == |ids|
      && (forall i :: 0 <= i < |ids| ==> d.keys[i] == AddressKey(ids[i]))
      && (forall k :: k in d.keys ==> k in d.values && d.values[k] == Str(DestName(dest)))
  {
    var inputs := AddressInputs(ids, dest);
    var name := DestName(dest);
    forall i, j | 0 <= i < j < |inputs| ensures inputs[i].name != inputs[j].name {
      AddressKeyInjective(ids[i], ids[j]);
    }
    NameToValueInOrder(inputs);
    var d := NameToValue(inputs);
    ValueIsDest(name, name);
    forall k | k in d.keys ensures k in d.values && d.values[k] == Str(name) {
      var i :| 0 <= i < |d.keys| && d.keys[i] == k;
      assert LastWithName(inputs, i);
      LaterWins(inputs, i);
    }
  }

  /** `getHidden` reads an echoed address list back as the ids it was built
      from, under its destination, and the other destination empty. */
  lemma ReadBackAddresses(ids: seq<Num>, dest: Dest)
    requires forall i, j :: 0 <= i < j < |ids| ==> ids[i] != ids[j]
    ensures var h := GetHidden(AddressInputs(ids, dest));
      if dest == To then h.to == ids && h.bcc == [] else h.bcc == ids && h.to == []
  {
    var d := NameToValue(AddressInputs(ids, dest));
    var name := DestName(dest);
    AddressDict(ids, dest);
    KeysWithAll(d.keys, d.values, name);
    KeysWithNone(d.keys, d.values, if dest == To then "bcc" else "to");
    ReadBackKeys(d.keys, ids);
  }

  /** The address fields of some ids parse back to those ids. */
  lemma ReadBackKeys(keys: seq<string>, ids: seq<Num>)
    requires |keys| == |ids| && forall i :: 0 <= i < |ids| ==> keys[i] == AddressKey(ids[i])
    ensures Addresses(keys) == ids
  {
    forall i | 0 <= i < |ids| ensures Addresses(keys)[i] == ids[i] {
      AddressKeyRoundTrip(ids[i]);
    }
  }

  /** The outcome of `send` given the reply: a reply that still shows the
      compose form's `textarea` is a failure. */
  function SendOutcome(response: string): (r: Result<()>)
    ensures r.Err? <==> Contains(response, "textarea")
    ensures r.Err? ==> r.error == Thrown(SendFailure)
  {
    if IndexOf(response, "textarea") > -1 then Err(Thrown(SendFailure)) else Ok(())
  }

  /** The list cut into consecutive runs of `max`, the last one shorter. */
  function Batches<T>(xs: seq<T>, max: nat): seq<seq<T>>
    requires max > 0
    decreases |xs|
  {
    if xs == [] then []
    else
      var n := if |xs| < max then |xs| else max;
      [xs[..n]] + Batches(xs[n..], max)
  }

  /** The batches laid end to end. */
  function Flatten<T>(bs: seq<seq<T>>): seq<T>
    decreases |bs|
  {
    if bs == [] then [] else bs[0] + Flatten(bs[1..])
  }

  /** Laying the batches end to end gives the recipients back in order. */
  lemma {:induction false} FlattenBatches<T>(xs: seq<T>, max: nat)
    requires max > 0
    ensures Flatten(Batches(xs, max)) == xs
    decreases |xs|
  {
    if xs != [] {
      var n := if |xs| < max then |xs| else max;
      var bs := Batches(xs, max);
      assert bs[0] == xs[..n] && bs[1..] == Batches(xs[n..], max);
      FlattenBatches(xs[n..], max);
      assert xs == xs[..n] + xs[n..];
    }
  }

  /** No recipients, no batches; each batch holds between one and `max`
      recipients, and all but the last exactly `max`. */
  lemma {:induction false} BatchSizes<T>(xs: seq<T>, max: nat)
    requires max > 0
    ensures var bs := Batches(xs, max);
      && (bs == [] <==> xs == [])
      && (forall i :: 0 <= i < |bs| ==> 0 < |bs[i]| <= max)
      && (forall i :: 0 <= i < |bs| - 1 ==> |bs[i]| == max)
    decreases |xs|
  {
    if xs != [] {
      var n := if |xs| < max then |xs| else max;
      var bs := Batches(xs, max);
      var rest := Batches(xs[n..], max);
      BatchSizes(xs[n..], max);
      assert bs == [xs[..n]] + rest;
      assert forall i :: 0 < i < |bs| ==> bs[i] == rest[i - 1];
    }
  }

  /** There are `|xs| / max` batches, rounded up: they hold all the
      recipients, and one batch fewer could not. */
  lemma {:induction false} BatchCount<T>(xs: seq<T>, max: nat)
    requires max > 0
    ensures var c := |Batches(xs, max)|; (c - 1) * max < |xs| <= c * max
    decreases |xs|
  {
    if xs != [] {
      var n := if |xs| < max then |xs| else max;
      BatchCount(xs[n..], max);
      var c := |Batches(xs[n..], max)|;
      assert |Batches(xs, max)| == c + 1;
      MulSucc(c, max);
      MulSucc(c - 1, max);
    }
  }

  /** One more batch holds `max` more. */
  lemma MulSucc(k: int, max: int)
    ensures (k + 1) * max == k * max + max
  {
  }

  /** `sendPM`: splice batches of at most `maxRecipients` off a copy of the
      recipients until none are left; each batch is one message. */
  method SendPm(recipients: array<string>, maxRecipients: nat) returns (batches: seq<seq<string>>)
    requires maxRecipients > 0
    ensures batches == Batches(recipients[..], maxRecipients)
  {
    var tmp := recipients[..];
    batches := [];
    while |tmp| > 0
      invariant batches + Batches(tmp, maxRecipients) == Batches(recipients[..], maxRecipients)
      decreases |tmp|
    {
      var n := if |tmp| < maxRecipients then |tmp| else maxRecipients;
      batches := batches + [tmp[..n]];
      tmp := tmp[n..];
    }
  }
}
