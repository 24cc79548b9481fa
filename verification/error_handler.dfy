/** `handleApiError`: turns a failed API call into error notifications,
    one per validation message, or a single message when the response
    carries no validation errors. */
module ErrorHandler {
  import opened Wrappers

  /** The message used when neither the response nor the caller gives one. */
  const DefaultMessage: string := "Произошла ошибка"

  /** The kind every notification raised here carries. */
  const ErrorKind: string := "error"

  /** One call of `addNotification(kind, text)`. */
  datatype Notification = Notification(kind: string, text: string)

  /** What the handler reads from `exception.response?.data`: the
      validation errors (field name to its messages, in property order)
      and the message; either is absent when the response, its data or
      the member itself is missing. */
  datatype ApiException = ApiException(errors: Option<seq<(string, seq<string>)>>, message: Option<string>)

  /** All validation messages, field after field, each field's messages in
      order: a message is raised exactly when some field carries it, and
      there are as many as the fields hold together. */
  function AllMessages(groups: seq<(string, seq<string>)>): (ms: seq<string>)
    ensures forall m :: m in ms <==> Carried(groups, m)
    ensures |ms| == MessageCount(groups)
  {
    if |groups| == 0 then []
    else
      var prev := AllMessages(groups[..|groups| - 1]);
      CarriedSnoc(groups, prev);
      prev + groups[|groups| - 1].1
  }

  /** Some field of the list carries the message. */
  predicate Carried(groups: seq<(string, seq<string>)>, m: string) {
    exists i :: 0 <= i < |groups| && m in groups[i].1
  }

  /** A message of the list is one of all but its last field, or of the
      last field. */
  lemma CarriedSnoc(groups: seq<(string, seq<string>)>, prev: seq<string>)
    requires |groups| > 0
    requires forall m :: m in prev <==> Carried(groups[..|groups| - 1], m)
    ensures forall m :: m in prev + groups[|groups| - 1].1 <==> Carried(groups, m)
  {
    var init := groups[..|groups| - 1];
    forall m | Carried(groups, m) ensures m in prev + groups[|groups| - 1].1 {
      var i :| 0 <= i < |groups| && m in groups[i].1;
      if i < |groups| - 1 {
        assert init[i] == groups[i];
      }
    }
    forall m | m in prev ensures Carried(groups, m) {
      var i :| 0 <= i < |init| && m in init[i].1;
      assert groups[i] == init[i];
    }
  }

  /** The single message used without validation errors: the response's
      message unless it is missing or empty, else the caller's default,
      else the built-in default. */
  function Fallback(e: ApiException, defaultMessage: Option<string>): (m: string)
    ensures e.message.Some? && e.message.value != "" ==> m == e.message.value
    ensures (e.message.None? || e.message.value == "") && defaultMessage.None? ==> m == DefaultMessage
    ensures (e.message.None? || e.message.value == "") && defaultMessage.Some? ==> m == defaultMessage.value
  {
    if e.message.Some? && e.message.value != "" then e.message.value
    else defaultMessage.GetOr(DefaultMessage)
  }

  /** Error notifications for the given texts, in order. */
  function Notify(texts: seq<string>): (ns: seq<Notification>)
    ensures |ns| == |texts|
    ensures forall i :: 0 <= i < |texts| ==> ns[i] == Notification(ErrorKind, texts[i])
  {
    seq(|texts|, i requires 0 <= i < |texts| => Notification(ErrorKind, texts[i]))
  }

  /** `handleApiError(exception, addNotification, defaultMessage)`: the
      notifications in the order they are raised. */
  method HandleApiError(e: ApiException, defaultMessage: Option<string>) returns (out: seq<Notification>)
    ensures forall i :: 0 <= i < |out| ==> out[i].kind == ErrorKind
    ensures e.errors.Some? ==> |out| == |AllMessages(e.errors.value)|
    ensures e.errors.Some? ==> forall i :: 0 <= i < |out| ==> out[i].text == AllMessages(e.errors.value)[i]
    ensures e.errors.None? ==> out == [Notification(ErrorKind, Fallback(e, defaultMessage))]
  {
    if e.errors.None? {
      return [Notification(ErrorKind, Fallback(e, defaultMessage))];
    }
    var groups := e.errors.value;
    out := [];
    var g := 0;
    while g < |groups|
      invariant 0 <= g <= |groups|
      invariant out == Notify(AllMessages(groups[..g]))
    {
      var messages := groups[g].1;
      var m := 0;
      while m < |messages|
        invariant 0 <= m <= |messages|
        invariant out == Notify(AllMessages(groups[..g]) + messages[..m])
      {
        out := out + [Notification(ErrorKind, messages[m])];
        assert (AllMessages(groups[..g]) + messages[..m + 1])
            == (AllMessages(groups[..g]) + messages[..m]) + [messages[m]];
        m := m + 1;
      }
      assert groups[..g + 1][..g] == groups[..g];
      assert messages[..m] == messages;
      g := g + 1;
    }
    assert groups[..g] == groups;
  }

  /** The messages of two field lists in a row are those of the first
      followed by those of the second. */
  lemma {:induction false} AllMessagesConcat(a: seq<(string, seq<string>)>, b: seq<(string, seq<string>)>)
    ensures AllMessages(a + b) == AllMessages(a) + AllMessages(b)
    decreases |b|
  {
    if |b| == 0 {
      assert a + b == a;
    } else {
      var init, last := b[..|b| - 1], b[|b| - 1];
      assert (a + b)[..|a + b| - 1] == a + init;
      assert (a + b)[|a + b| - 1] == last;
      calc {
        AllMessages(a + b);
        AllMessages(a + init) + last.1;
        == { AllMessagesConcat(a, init); }
        (AllMessages(a) + AllMessages(init)) + last.1;
        AllMessages(a) + (AllMessages(init) + last.1);
        AllMessages(a) + AllMessages(b);
      }
    }
  }

  /** The number of notifications is the total number of messages. */
  function MessageCount(groups: seq<(string, seq<string>)>): nat {
    if |groups| == 0 then 0 else MessageCount(groups[..|groups| - 1]) + |groups[|groups| - 1].1|
  }

  /** An errors object without members raises nothing, even though it is
      present. */
  method EmptyErrorsExample() returns (out: seq<Notification>)
    ensures out == []
  {
    out := HandleApiError(ApiException(Some([]), Some("ignored")), None);
  }

  /** Without validation errors and with an empty message, the built-in
      default is shown. */
  method DefaultMessageExample() returns (out: seq<Notification>)
    ensures out == [Notification(ErrorKind, DefaultMessage)]
  {
    out := HandleApiError(ApiException(None, Some("")), None);
  }
}
