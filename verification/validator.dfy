/** Turning validation failures into the JSON error map the HTTP layer
    returns: one readable message per failed rule, grouped under the
    snake_case path of the field that failed. */
module Validator {
  import opened Results
  import opened Text
  import opened SnakeCase

  /** One failed rule, as the validation library reports it: the rule's tag
      (`required`, `min`, ...), the struct field's own name, its full path
      from the validated root (`User.Email`, `Categories[0].Name`), the
      rule's parameter text and the name of the field's kind (`string`,
      `int`, ...). */
  datatype FieldError = FieldError(tag: string, field: string, namespace: string, param: string, kind: string)

  /** The error handed to `FormatValidationErrors`: nothing, an error of
      some other type (only its text matters), or the library's list of
      rule failures. */
  datatype ErrorValue = NilError | PlainError(text: string) | ValidationErrors(errors: seq<FieldError>)

  /** The tags `getErrorMessage` has a sentence for, and every other tag
      under its own name. */
  datatype Tag =
    | Required | Email | Min | Max | Len | OneOf | Url | Uuid | Boolean | Numeric
    | Gte | Lte | Gt | Lt | Alpha | Alphanum | HexColor
    | Unlisted(name: string)

  /** How the validation library spells a tag. */
  function TagName(t: Tag): string
  {
    match t
    case Required => "required"
    case Email => "email"
    case Min => "min"
    case Max => "max"
    case Len => "len"
    case OneOf => "oneof"
    case Url => "url"
    case Uuid => "uuid"
    case Boolean => "boolean"
    case Numeric => "numeric"
    case Gte => "gte"
    case Lte => "lte"
    case Gt => "gt"
    case Lt => "lt"
    case Alpha => "alpha"
    case Alphanum => "alphanum"
    case HexColor => "hexcolor"
    case Unlisted(name) => name
  }

  /** The `switch` on the tag: the first case whose spelling matches. */
  function Classify(tag: string): (t: Tag)
    ensures TagName(t) == tag
  {
    if tag == "required" then Required
    else if tag == "email" then Email
    else if tag == "min" then Min
    else if tag == "max" then Max
    else if tag == "len" then Len
    else if tag == "oneof" then OneOf
    else if tag == "url" then Url
    else if tag == "uuid" then Uuid
    else if tag == "boolean" then Boolean
    else if tag == "numeric" then Numeric
    else if tag == "gte" then Gte
    else if tag == "lte" then Lte
    else if tag == "gt" then Gt
    else if tag == "lt" then Lt
    else if tag == "alpha" then Alpha
    else if tag == "alphanum" then Alphanum
    else if tag == "hexcolor" then HexColor
    else Unlisted(tag)
  }

  /** Every listed tag is reached by its own spelling: no two cases share a
      spelling and none is shadowed by an earlier one. */
  lemma ClassifyTagName(t: Tag)
    requires !t.Unlisted?
    ensures Classify(TagName(t)) == t
  {
    match t
    case Required =>
    case Email =>
    case Min =>
    case Max =>
    case Len =>
    case OneOf =>
    case Url =>
    case Uuid =>
    case Boolean =>
    case Numeric =>
    case Gte =>
    case Lte =>
    case Gt =>
    case Lt =>
    case Alpha =>
    case Alphanum =>
    case HexColor =>
  }

  /** Whether the tag has a sentence of its own. */
  predicate Known(tag: string)
  {
    !Classify(tag).Unlisted?
  }

  /** `oneof` lists its choices with ", " where the parameter has a space. */
  function OneOfList(param: string): string
  {
    ReplaceAll(param, " ", ", ")
  }

  const FallbackLead: string := "Validation failed for "

  /** The key a non-validation error is filed under. */
  const GenericErrorKey: string := "_error_"

  /** What a listed tag says about the field, as the text that follows the
      field's name; `None` for an unlisted tag. */
  function Requirement(e: FieldError): (r: Option<string>)
    ensures r.Some? <==> Known(e.tag)
    ensures r.Some? ==> |r.value| > 0 && r.value[0] == ' '
  {
    var p := e.param;
    match Classify(e.tag)
    case Required => Some(" is required")
    case Email => Some(" must be a valid email address")
    case Min =>
      if e.kind == "string" then Some(" must be at least " + p + " characters long")
      else Some(" must be at least " + p)
    case Max =>
      if e.kind == "string" then Some(" must be at most " + p + " characters long")
      else Some(" must be at most " + p)
    case Len => Some(" must be exactly " + p + " characters long")
    case OneOf => Some(" must be one of " + OneOfList(p))
    case Url => Some(" must be a valid URL")
    case Uuid => Some(" must be a valid UUID")
    case Boolean => Some(" must be a boolean")
    case Numeric => Some(" must be a number")
    case Gte => Some(" must be greater than or equal to " + p)
    case Lte => Some(" must be less than or equal to " + p)
    case Gt => Some(" must be greater than " + p)
    case Lt => Some(" must be less than " + p)
    case Alpha => Some(" must contain only alphabetic characters")
    case Alphanum => Some(" must contain only alphanumeric characters")
    case HexColor => Some(" must be a valid hex color code")
    case Unlisted(_) => None
  }

  /** The readable message for one failed rule, naming the field by the
      snake_case form of its own name (not its full path). */
  function GetErrorMessage(e: FieldError): (m: string)
    ensures var f := ToSnakeCase(e.field);
      Known(e.tag) ==> |m| > |f| && m[..|f|] == f && m[|f|] == ' '
    ensures !Known(e.tag) ==>
      |m| >= |FallbackLead| + |e.tag| && m[..|FallbackLead|] == FallbackLead && m[|m| - |e.tag|..] == e.tag
    ensures Known(e.tag) ==> m == ToSnakeCase(e.field) + Requirement(e).value
    ensures !Known(e.tag) ==> m == FallbackLead + ToSnakeCase(e.field) + " on tag " + e.tag
  {
    var f, req := ToSnakeCase(e.field), Requirement(e);
    MessageParts(f, req, e.tag);
    match req
    case Some(tail) => f + tail
    case None => FallbackLead + f + " on tag " + e.tag
  }

  /** How the two message forms begin and end. */
  lemma MessageParts(f: string, req: Option<string>, tag: string)
    ensures req.Some? ==> (f + req.value)[..|f|] == f
    ensures var m := FallbackLead + f + " on tag " + tag;
      m[..|FallbackLead|] == FallbackLead && m[|m| - |tag|..] == tag
  {
    if req.Some? {
      assert (f + req.value)[..|f|] == f;
    }
    var m := FallbackLead + f + " on tag " + tag;
    assert m[..|FallbackLead|] == FallbackLead;
    assert m[|m| - |tag|..] == tag;
  }

  /** A message starts with a capital exactly when its tag has no message of
      its own: the field name in front of every other message is lower-case. */
  lemma FallbackIffUnknownTag(e: FieldError)
    ensures var m := GetErrorMessage(e);
      |m| > 0 && (IsUpper(m[0]) <==> !Known(e.tag))
  {
    var f := ToSnakeCase(e.field);
    var m := GetErrorMessage(e);
    if Known(e.tag) {
      if |f| > 0 {
        assert m[0] == m[..|f|][0] == f[0];
        assert !IsUpper(f[0]);
      } else {
        assert m[0] == ' ';
      }
    } else {
      assert m[0] == m[..|FallbackLead|][0] == 'V';
    }
  }

  /** The message names the field by its own name: where the field sits in
      the validated structure does not change it. */
  lemma MessageIgnoresNamespace(e: FieldError, namespace: string)
    ensures GetErrorMessage(e.(namespace := namespace)) == GetErrorMessage(e)
  {
  }

  /** Only `min` and `max` look at the field's kind, and for them a string
      field gets the same sentence with " characters long" added. */
  lemma KindOnlyAddsUnits(e: FieldError, kind: string)
    ensures Classify(e.tag) in {Min, Max} ==>
      GetErrorMessage(e.(kind := "string")) == GetErrorMessage(e.(kind := "int")) + " characters long"
    ensures Classify(e.tag) !in {Min, Max} ==>
      GetErrorMessage(e.(kind := kind)) == GetErrorMessage(e)
  {
  }

  /** The choice list never starts with a space: a space becomes ", " and
      every other character is copied. */
  lemma {:induction false} OneOfListHead(p: string)
    ensures var r := OneOfList(p); |r| >= |p| && (|r| > 0 ==> r[0] != ' ')
    decreases |p|
  {
    if |p| > 0 {
      OneOfListHead(p[1..]);
    }
  }

  /** Reading the choice list back (", " to " ") gives the rule's
      parameter: the message loses nothing of it. */
  lemma {:induction false} OneOfListRoundTrip(p: string)
    ensures ReplaceAll(OneOfList(p), ", ", " ") == p
    decreases |p|
  {
    if |p| > 0 {
      var rest := OneOfList(p[1..]);
      OneOfListRoundTrip(p[1..]);
      if p[..1] == " " {
        assert OneOfList(p) == ", " + rest;
        assert (", " + rest)[..2] == ", ";
        assert (", " + rest)[2..] == rest;
        assert p == " " + p[1..];
      } else {
        OneOfListHead(p[1..]);
        var s := [p[0]] + rest;
        assert OneOfList(p) == s;
        if |s| >= 2 {
          assert s[..2] != ", " by {
            assert s[1] == rest[0];
          }
        }
        assert s[1..] == rest;
        assert p == [p[0]] + p[1..];
      }
    }
  }

  /** The `oneof` message carries the parameter in a form it can be read
      back from. */
  lemma OneOfMessageKeepsChoices(e: FieldError)
    requires Classify(e.tag) == OneOf
    ensures exists list :: GetErrorMessage(e) == ToSnakeCase(e.field) + " must be one of " + list
                       && ReplaceAll(list, ", ", " ") == e.param
  {
    OneOfListRoundTrip(e.param);
    assert GetErrorMessage(e) == ToSnakeCase(e.field) + " must be one of " + OneOfList(e.param);
  }

  /** The key a rule failure is filed under: the snake_case form of the
      field's full path. */
  function Key(e: FieldError): string
  {
    ToSnakeCase(e.namespace)
  }

  /** Keys carry no dots and never collide with the key of a non-validation
      error, which starts with an underscore. */
  lemma KeyShape(e: FieldError)
    ensures Key(e) != GenericErrorKey
    ensures '.' !in Key(e)
  {
    assert GenericErrorKey[0] == '_';
  }

  /** The messages of the items filed under `k`, in order, for any way of
      keying and wording an item. */
  function Collect<T>(xs: seq<T>, key: T -> string, message: T -> string, k: string): (ms: seq<string>)
    ensures |ms| <= |xs|
  {
    if xs == [] then []
    else (if key(xs[0]) == k then [message(xs[0])] else []) + Collect(xs[1..], key, message, k)
  }

  lemma {:induction false} CollectSnoc<T>(xs: seq<T>, x: T, key: T -> string, message: T -> string, k: string)
    ensures Collect(xs + [x], key, message, k)
         == Collect(xs, key, message, k) + (if key(x) == k then [message(x)] else [])
    decreases |xs|
  {
    if xs == [] {
      assert [x][1..] == [];
    } else {
      assert (xs + [x])[0] == xs[0];
      assert (xs + [x])[1..] == xs[1..] + [x];
      CollectSnoc(xs[1..], x, key, message, k);
    }
  }

  lemma {:induction false} CollectNonEmpty<T>(xs: seq<T>, key: T -> string, message: T -> string, k: string)
    ensures Collect(xs, key, message, k) != [] <==> exists i :: 0 <= i < |xs| && key(xs[i]) == k
    decreases |xs|
  {
    if xs != [] {
      CollectNonEmpty(xs[1..], key, message, k);
      if exists i :: 0 <= i < |xs[1..]| && key(xs[1..][i]) == k {
        var i :| 0 <= i < |xs[1..]| && key(xs[1..][i]) == k;
        assert key(xs[i + 1]) == k;
      }
      if exists i :: 0 <= i < |xs| && key(xs[i]) == k {
        var i :| 0 <= i < |xs| && key(xs[i]) == k;
        if i > 0 { assert key(xs[1..][i - 1]) == k; }
      }
    }
  }

  /** Reference definition: the messages of the failures filed under `k`,
      in the order the library reported them. */
  function MessagesFor(errs: seq<FieldError>, k: string): seq<string>
  {
    Collect(errs, Key, GetErrorMessage, k)
  }

  /** Adding a failure at the end adds its message at the end of its own
      key's list and nowhere else. */
  lemma MessagesForSnoc(errs: seq<FieldError>, e: FieldError, k: string)
    ensures MessagesFor(errs + [e], k)
         == MessagesFor(errs, k) + (if Key(e) == k then [GetErrorMessage(e)] else [])
  {
    CollectSnoc(errs, e, Key, GetErrorMessage, k);
  }

  /** A key has messages exactly when some failure is filed under it. */
  lemma MessagesForNonEmpty(errs: seq<FieldError>, k: string)
    ensures MessagesFor(errs, k) != [] <==> exists i :: 0 <= i < |errs| && Key(errs[i]) == k
  {
    CollectNonEmpty(errs, Key, GetErrorMessage, k);
  }

  /** `formatted` files exactly the messages of `xs`: a key is present
      when some item is filed under it, and holds that key's messages in
      order. */
  ghost predicate Grouped<T>(formatted: map<string, seq<string>>, xs: seq<T>,
                             key: T -> string, message: T -> string)
  {
    (forall k :: k in formatted <==> Collect(xs, key, message, k) != [])
    && (forall k :: k in formatted ==> formatted[k] == Collect(xs, key, message, k))
  }

  /** One iteration of the loop: the item's message appended to the list
      under its key, a missing key reading as the empty list. */
  function FileMessage<T>(formatted: map<string, seq<string>>, x: T, key: T -> string, message: T -> string)
    : (next: map<string, seq<string>>)
    ensures key(x) in next
    ensures forall k :: k in formatted ==> k in next
  {
    formatted[key(x) := (if key(x) in formatted then formatted[key(x)] else []) + [message(x)]]
  }

  /** One iteration of the loop keeps `Grouped`. */
  lemma GroupedSnoc<T>(formatted: map<string, seq<string>>, xs: seq<T>, x: T,
                       key: T -> string, message: T -> string)
    requires Grouped(formatted, xs, key, message)
    ensures Grouped(FileMessage(formatted, x, key, message), xs + [x], key, message)
  {
    var next := FileMessage(formatted, x, key, message);
    forall k
      ensures (k in next <==> Collect(xs + [x], key, message, k) != [])
      ensures (k in next ==> next[k] == Collect(xs + [x], key, message, k))
    {
      CollectSnoc(xs, x, key, message, k);
      if k != key(x) {
        assert Collect(xs + [x], key, message, k) == Collect(xs, key, message, k) + [];
      }
    }
  }

  /** The keys of a grouping are exactly the keys of the items. */
  lemma GroupedKeys<T>(formatted: map<string, seq<string>>, xs: seq<T>, key: T -> string, message: T -> string)
    requires Grouped(formatted, xs, key, message)
    ensures forall k :: k in formatted <==> exists i :: 0 <= i < |xs| && key(xs[i]) == k
  {
    forall k ensures k in formatted <==> exists i :: 0 <= i < |xs| && key(xs[i]) == k {
      CollectNonEmpty(xs, key, message, k);
    }
  }

  /** The loop of `FormatValidationErrors`, for any way of keying and
      wording an item: each message is appended to the list under its key,
      a missing key starting empty. */
  method GroupBy<T>(xs: seq<T>, key: T -> string, message: T -> string)
    returns (formatted: map<string, seq<string>>)
    ensures forall k :: k in formatted <==> exists i :: 0 <= i < |xs| && key(xs[i]) == k
    ensures forall k :: k in formatted ==> formatted[k] == Collect(xs, key, message, k)
  {
    formatted := map[];
    var i := 0;
    while i < |xs|
      invariant 0 <= i <= |xs|
      invariant Grouped(formatted, xs[..i], key, message)
    {
      GroupedSnoc(formatted, xs[..i], xs[i], key, message);
      assert xs[..i + 1] == xs[..i] + [xs[i]];
      formatted := FileMessage(formatted, xs[i], key, message);
      i := i + 1;
    }
    assert xs[..i] == xs;
    GroupedKeys(formatted, xs, key, message);
  }

  /** The loop over the library's failures: each failure's message filed
      under the snake_case form of its namespace. */
  method GroupMessages(errs: seq<FieldError>) returns (formatted: map<string, seq<string>>)
    ensures forall k :: k in formatted <==> exists i :: 0 <= i < |errs| && Key(errs[i]) == k
    ensures forall k :: k in formatted ==> formatted[k] == MessagesFor(errs, k)
  {
    formatted := GroupBy(errs, Key, GetErrorMessage);
  }

  /** `FormatValidationErrors`: nothing for no error, the error's own text
      under "_error_" for an error of another type, and otherwise every
      failure's message filed, in order, under its key. */
  method FormatValidationErrors(err: ErrorValue) returns (r: Option<map<string, seq<string>>>)
    ensures err.NilError? <==> r.None?
    ensures err.PlainError? ==> r == Some(map[GenericErrorKey := [err.text]])
    ensures err.ValidationErrors? ==>
      (r.Some?
       && (forall k :: k in r.value <==> exists i :: 0 <= i < |err.errors| && Key(err.errors[i]) == k)
       && (forall k :: k in r.value ==> r.value[k] == MessagesFor(err.errors, k)))
  {
    match err {
      case NilError => return None;
      case PlainError(text) => return Some(map[GenericErrorKey := [text]]);
      case ValidationErrors(errs) =>
        var formatted := GroupMessages(errs);
        return Some(formatted);
    }
  }
}
