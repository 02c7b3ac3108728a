/** The string helpers of the board client: the error box of a response, the
    user id in an address-list key, the name of the logged-in user, and the
    hidden inputs of a form page (given as their `name` and `value`
    attributes in document order). */
module PhpbbClient {
  import opened Js
  import opened Text

  /** The class of an error box, and the same with the end of its opening tag. */
  const ErrorClass := "class=\"error\""
  const ErrorOpen := "class=\"error\">"

  /** The logout link and the title that holds the user's name. */
  const LogoutMarker := "href=\"./.ucp.php?mode=logout"
  const LogoutTitle := "title=\"Logout ["

  /** `parseError`: without an error box, no error; otherwise the text after
      the first `class="error">` up to the next `<`. With the class present
      but never followed by `>`, reading the second piece of the split
      throws. */
  function ParseError(page: string): (r: Result<string>)
    ensures !Contains(page, ErrorClass) ==> r == Ok("")
    ensures Contains(page, ErrorClass) ==> (r.Ok? <==> Contains(page, ErrorOpen))
    ensures r.Ok? ==> '<' !in r.value
  {
    if !Contains(page, ErrorClass) then Ok("")
    else
      var parts := Split(page, ErrorOpen);
      if |parts| < 2 then Err(TypeError)
      else
        var text := Split(parts[1], "<")[0];
        SplitPiecesAvoidSep(parts[1], "<");
        CharNotContained(text, '<');
        Ok(text)
  }

  /** The message of an error box is read back whole when it holds no `<`
      and no second error box, and the box is the page's first. */
  lemma ParseErrorOf(pre: string, msg: string, rest: string)
    requires IndexOf(pre + ErrorOpen, ErrorOpen) == |pre|
    requires '<' !in msg && !Contains(msg, ErrorOpen)
    ensures ParseError(pre + ErrorOpen + msg + "<" + rest) == Ok(msg)
  {
    var page := pre + ErrorOpen + msg + "<" + rest;
    ErrorOpenFacts();
    SecondPieceUpToStop(pre, ErrorOpen, msg, '<', rest);
    IndexOfAppend(pre + ErrorOpen, ErrorOpen, msg + "<" + rest);
    ContainsPrefix(page, ErrorOpen, |ErrorClass|);
  }

  lemma ErrorOpenFacts()
    ensures '<' !in ErrorOpen && ErrorOpen[..|ErrorClass|] == ErrorClass
  {
  }

  /** `parseAddress`: the number between the last `[` and the `]` after it. */
  function ParseAddress(field: string): (r: Num)
    ensures '[' !in field && ']' !in field ==> r == ToNumber(field)
  {
    if '[' !in field && ']' !in field then
      SplitWithout(field, "[");
      SplitWithout(field, "]");
      ToNumber(Split(Last(Split(field, "[")), "]")[0])
    else ToNumber(Split(Last(Split(field, "[")), "]")[0])
  }

  /** The number text put between the last `[` and a closing `]` is what
      `parseAddress` reads. */
  lemma ParseAddressOf(pre: string, n: string)
    requires '[' !in n && ']' !in n
    ensures ParseAddress(pre + "[" + n + "]") == ToNumber(n)
  {
    assert pre + "[" + n + "]" == pre + ['['] + (n + "]");
    AfterLastOpen(pre, n + "]");
    BeforeClose(n);
  }

  lemma AfterLastOpen(pre: string, tail: string)
    requires '[' !in tail
    ensures Last(Split(pre + ['['] + tail, "[")) == tail
  {
    SplitAround(pre, '[', tail);
    SplitWithout(tail, "[");
  }

  lemma BeforeClose(n: string)
    requires ']' !in n
    ensures Split(n + "]", "]")[0] == n
  {
    assert n + [']'] + "" == n + "]";
    SplitAroundFirst(n, ']', "");
  }

  /** `s.split(sep, 2).pop()`: the text between the first and the second
      separator, or the whole string without one. */
  function PopOfSplitTwo(s: string, sep: string): string
    requires sep != ""
  {
    var parts := Split(s, sep);
    if |parts| >= 2 then parts[1] else parts[0]
  }

  /** `getLoggedInUser`: without the logout link, nobody; otherwise the
      trimmed text after the logout title up to the next `]`. */
  function GetLoggedInUser(page: string): (r: string)
    ensures !Contains(page, LogoutMarker) ==> r == ""
  {
    if !Contains(page, LogoutMarker) then ""
    else Trim(Split(PopOfSplitTwo(PopOfSplitTwo(page, LogoutMarker), LogoutTitle), "]")[0])
  }

  /** The name in the title of the first logout link is read back, trimmed,
      when it holds no `]` and no second title, and no second logout link
      comes before its end. */
  lemma LoggedInUserOf(pre: string, mid: string, name: string, rest: string)
    requires IndexOf(pre + LogoutMarker, LogoutMarker) == |pre|
    requires IndexOf(mid + LogoutTitle, LogoutTitle) == |mid|
    requires !Contains(mid + LogoutTitle + name, LogoutMarker)
    requires ']' !in name && !Contains(name, LogoutTitle)
    ensures GetLoggedInUser(pre + LogoutMarker + mid + LogoutTitle + name + "]" + rest) == Trim(name)
  {
    LogoutFacts();
    ReadAfterTwoMarkers(pre, LogoutMarker, mid, LogoutTitle, name, ']', rest);
  }

  /** The text after the first `marker`, then after the first `title`, up to
      the first `stop`, when neither marker nor title hides the stop and no
      marker or title comes early. */
  lemma ReadAfterTwoMarkers(pre: string, marker: string, mid: string, title: string, x: string, stop: char, rest: string)
    requires marker != "" && title != "" && stop !in marker && stop !in title
    requires IndexOf(pre + marker, marker) == |pre| && IndexOf(mid + title, title) == |mid|
    requires !Contains(mid + title + x, marker)
    requires stop !in x && !Contains(x, title)
    ensures var page := pre + marker + mid + title + x + [stop] + rest;
      Contains(page, marker) && Split(PopOfSplitTwo(PopOfSplitTwo(page, marker), title), [stop])[0] == x
  {
    var page := pre + marker + mid + title + x + [stop] + rest;
    Regroup(pre, marker, mid, title, x, [stop], rest);
    PopStartsWith(pre, marker, mid + title + x, stop, rest);
    ReadFromPiece(PopOfSplitTwo(page, marker), mid, title, x, stop);
  }

  /** A piece that starts with `mid`, the title, `x` and the stop reads
      back `x` after its first title. */
  lemma ReadFromPiece(first: string, mid: string, title: string, x: string, stop: char)
    requires title != "" && stop !in title && IndexOf(mid + title, title) == |mid|
    requires stop !in x && !Contains(x, title)
    requires |mid + title + x| < |first| && first[..|mid + title + x| + 1] == mid + title + x + [stop]
    ensures Split(PopOfSplitTwo(first, title), [stop])[0] == x
  {
    var w := first[|mid + title + x| + 1..];
    assert first == mid + title + x + [stop] + w by {
      assert first == first[..|mid + title + x| + 1] + w;
    }
    PopUpToStop(mid, title, x, stop, w);
  }

  /** After the first separator comes the text put there and the stop. */
  lemma PopStartsWith(pre: string, sep: string, x: string, stop: char, rest: string)
    requires sep != "" && IndexOf(pre + sep, sep) == |pre|
    requires stop !in sep && !Contains(x, sep)
    ensures var page := pre + sep + x + [stop] + rest;
      var p := PopOfSplitTwo(page, sep);
      Contains(page, sep) && |x| < |p| && p[..|x| + 1] == x + [stop]
  {
    assert pre + sep + x + [stop] + rest == (pre + sep) + (x + [stop] + rest);
    IndexOfAppend(pre + sep, sep, x + [stop] + rest);
    SecondPieceStartsWith(pre, sep, x, stop, rest);
  }

  /** After the first separator, up to the stop, is the text put there. */
  lemma PopUpToStop(pre: string, sep: string, x: string, stop: char, rest: string)
    requires sep != "" && IndexOf(pre + sep, sep) == |pre|
    requires stop !in sep && stop !in x && !Contains(x, sep)
    ensures Split(PopOfSplitTwo(pre + sep + x + [stop] + rest, sep), [stop])[0] == x
  {
    SecondPieceUpToStop(pre, sep, x, stop, rest);
  }

  lemma LogoutFacts()
    ensures ']' !in LogoutMarker && ']' !in LogoutTitle
  {
  }

  /** A hidden input of the page. */
  datatype Input = Input(name: string, value: string)

  /** A JavaScript object used as a dictionary: its keys in insertion order
      and the value of each. */
  datatype Dict = Dict(keys: seq<string>, values: map<string, Value>)

  /** Each key listed once, and exactly the keys that have values. */
  ghost predicate Keyed(d: Dict) {
    && (forall i, j :: 0 <= i < j < |d.keys| ==> d.keys[i] != d.keys[j])
    && (forall k :: k in d.values <==> k in d.keys)
  }

  /** `acc[key] = value`: a new key goes last, a present one keeps its place. */
  function Put(d: Dict, k: string, v: Value): (r: Dict)
    requires Keyed(d)
    ensures Keyed(r) && r.values.Keys == d.values.Keys + {k} && r.values[k] == v
  {
    Dict(if k in d.values then d.keys else d.keys + [k], d.values[k := v])
  }

  /** The value kept for an input: its number when `Number(value)` is one,
      the string otherwise. */
  function ValueOf(s: string): (v: Value)
    ensures v.Str? <==> ToNumber(s).NaN?
    ensures v.Str? ==> v.text == s
    ensures v.Number? ==> v.num == ToNumber(s)
  {
    var n := ToNumber(s);
    if n.NaN? then Str(s) else Number(n)
  }

  /** Only the string `dest` itself is kept as the string `dest`, for the two
      destinations (neither reads as a number). */
  lemma ValueIsDest(s: string, dest: string)
    requires dest == "to" || dest == "bcc"
    ensures ValueOf(s) == Str(dest) <==> s == dest
  {
    DestIsWord(dest);
  }

  lemma DestIsWord(dest: string)
    requires dest == "to" || dest == "bcc"
    ensures ToNumber(dest).NaN?
  {
    NaNOfWord(dest);
  }

  /** The reduce of `getHidden`: each input's value stored under its name,
      in document order. */
  function NameToValue(inputs: seq<Input>): (d: Dict)
    ensures Keyed(d) && d.values.Keys == Names(inputs)
    decreases |inputs|
  {
    if inputs == [] then Dict([], map[])
    else Put(NameToValue(inputs[..|inputs| - 1]), Last(inputs).name, ValueOf(Last(inputs).value))
  }

  /** The names of the inputs. */
  ghost function Names(inputs: seq<Input>): (r: set<string>)
    ensures forall i :: 0 <= i < |inputs| ==> inputs[i].name in r
    ensures forall k :: k in r ==> exists i :: 0 <= i < |inputs| && inputs[i].name == k
    decreases |inputs|
  {
    if inputs == [] then {}
    else
      var front := inputs[..|inputs| - 1];
      assert forall i :: 0 <= i < |front| ==> front[i] == inputs[i];
      Names(front) + {Last(inputs).name}
  }

  /** The input at `i` is the last one with its name. */
  ghost predicate LastWithName(inputs: seq<Input>, i: int) {
    0 <= i < |inputs| && forall j :: i < j < |inputs| ==> inputs[j].name != inputs[i].name
  }

  /** A later input with the same name overwrites an earlier one: each name
      keeps the value of its last input. */
  lemma {:induction false} LaterWins(inputs: seq<Input>, i: int)
    requires LastWithName(inputs, i)
    ensures inputs[i].name in NameToValue(inputs).values
    ensures NameToValue(inputs).values[inputs[i].name] == ValueOf(inputs[i].value)
    decreases |inputs|
  {
    var front := inputs[..|inputs| - 1];
    if i < |inputs| - 1 {
      assert front[i] == inputs[i];
      assert LastWithName(front, i) by {
        forall j | i < j < |front| ensures front[j].name != front[i].name {
          assert front[j] == inputs[j];
        }
      }
      LaterWins(front, i);
    }
  }

  /** `Object.keys(nameToValue).filter(k => nameToValue[k] === dest)`. */
  function KeysWith(keys: seq<string>, values: map<string, Value>, dest: string): (r: seq<string>)
    requires forall k :: k in keys ==> k in values
    ensures forall k :: k in r <==> k in keys && values[k] == Str(dest)
    ensures |r| <= |keys|
    decreases |keys|
  {
    if keys == [] then []
    else
      var r := KeysWith(keys[..|keys| - 1], values, dest);
      assert forall k :: k in keys <==> k in keys[..|keys| - 1] || k == Last(keys) by {
        assert keys == keys[..|keys| - 1] + [Last(keys)];
      }
      if values[Last(keys)] == Str(dest) then r + [Last(keys)] else r
  }

  /** What `getHidden` returns: the named values but `to` and `bcc`, and the
      addresses of the keys whose value is `'to'` or `'bcc'`. */
  datatype Hidden = Hidden(fields: map<string, Value>, to: seq<Num>, bcc: seq<Num>)

  /** `parseAddress` of each key, in order. */
  function Addresses(keys: seq<string>): (r: seq<Num>)
    ensures |r| == |keys| && forall i :: 0 <= i < |keys| ==> r[i] == ParseAddress(keys[i])
  {
    seq(|keys|, i requires 0 <= i < |keys| => ParseAddress(keys[i]))
  }

  /** `getHidden` over the page's hidden inputs. */
  function GetHidden(inputs: seq<Input>): (h: Hidden)
    ensures h.fields.Keys == NameToValue(inputs).values.Keys - {"to", "bcc"}
    ensures forall k :: k in NameToValue(inputs).values && k != "to" && k != "bcc" ==>
      k in h.fields && h.fields[k] == NameToValue(inputs).values[k]
  {
    var d := NameToValue(inputs);
    Hidden(Fields(d.values), Addresses(KeysWith(d.keys, d.values, "to")), Addresses(KeysWith(d.keys, d.values, "bcc")))
  }

  /** The named values but `to` and `bcc`, which the destination lists
      replace. */
  function Fields(values: map<string, Value>): (f: map<string, Value>)
    ensures f.Keys == values.Keys - {"to", "bcc"}
    ensures forall k :: k in values && k != "to" && k != "bcc" ==> k in f && f[k] == values[k]
  {
    values - {"to", "bcc"}
  }

  /** A named input other than `to` and `bcc` keeps the value of its last
      occurrence, as a number when it reads as one. */
  lemma HiddenField(inputs: seq<Input>, i: int)
    requires LastWithName(inputs, i) && inputs[i].name != "to" && inputs[i].name != "bcc"
    ensures GetHidden(inputs).fields[inputs[i].name] == ValueOf(inputs[i].value)
  {
    LaterWins(inputs, i);
  }

  /** The name of an input goes to the `to` (or `bcc`) keys exactly when the
      value of its last occurrence is the string `'to'` (or `'bcc'`). */
  lemma HiddenDest(inputs: seq<Input>, i: int, dest: string)
    requires LastWithName(inputs, i) && (dest == "to" || dest == "bcc")
    ensures var d := NameToValue(inputs);
      inputs[i].name in KeysWith(d.keys, d.values, dest) <==> inputs[i].value == dest
  {
    LaterWins(inputs, i);
    ValueIsDest(inputs[i].value, dest);
  }

  /** Inputs whose names are all different. */
  ghost predicate DistinctNames(inputs: seq<Input>) {
    forall i, j :: 0 <= i < j < |inputs| ==> inputs[i].name != inputs[j].name
  }

  /** With distinct names, the dictionary lists the names in document order. */
  lemma {:induction false} NameToValueInOrder(inputs: seq<Input>)
    requires DistinctNames(inputs)
    ensures var keys := NameToValue(inputs).keys;
      |keys| == |inputs| && forall i :: 0 <= i < |inputs| ==> keys[i] == inputs[i].name
    decreases |inputs|
  {
    if inputs != [] {
      var front := inputs[..|inputs| - 1];
      FrontDistinct(inputs);
      NameToValueInOrder(front);
      LastNameIsNew(inputs);
      assert NameToValue(inputs).keys == NameToValue(front).keys + [Last(inputs).name];
    }
  }

  lemma FrontDistinct(inputs: seq<Input>)
    requires DistinctNames(inputs) && inputs != []
    ensures DistinctNames(inputs[..|inputs| - 1])
    ensures forall i :: 0 <= i < |inputs| - 1 ==> inputs[..|inputs| - 1][i] == inputs[i]
  {
  }

  /** With distinct names, the last input's name is not yet a key. */
  lemma LastNameIsNew(inputs: seq<Input>)
    requires DistinctNames(inputs) && inputs != []
    ensures Last(inputs).name !in NameToValue(inputs[..|inputs| - 1]).values
  {
    var front := inputs[..|inputs| - 1];
    assert forall i :: 0 <= i < |front| ==> front[i] == inputs[i];
  }

  /** When every key holds the string `dest`, the filter keeps them all. */
  lemma {:induction false} KeysWithAll(keys: seq<string>, values: map<string, Value>, dest: string)
    requires forall k :: k in keys ==> k in values && values[k] == Str(dest)
    ensures KeysWith(keys, values, dest) == keys
    decreases |keys|
  {
    if keys != [] {
      var front := keys[..|keys| - 1];
      assert forall k :: k in front ==> k in keys;
      KeysWithAll(front, values, dest);
      assert keys == front + [Last(keys)];
    }
  }

  /** When no key holds the string `dest`, the filter keeps none. */
  lemma KeysWithNone(keys: seq<string>, values: map<string, Value>, dest: string)
    requires forall k :: k in keys ==> k in values && values[k] != Str(dest)
    ensures KeysWith(keys, values, dest) == []
  {
    var r := KeysWith(keys, values, dest);
    assert forall k :: k !in r;
  }
}
