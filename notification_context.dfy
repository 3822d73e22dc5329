/** The toast list kept by the notification provider: `addToast` appends a
    toast, `removeToast` drops every toast with a given id. The provider
    takes the id from the clock; here it is a parameter. */
module NotificationContext {

  import opened Sequences

  datatype ToastKind = Info | Success | Error

  datatype Toast = Toast(id: int, message: string, kind: ToastKind)

  /** The list after `addToast(message, kind)`: the new toast goes last, and
      its kind is `Info` when the caller gives none. */
  function AddToast(toasts: seq<Toast>, message: string, id: int, kind: ToastKind := Info): (r: seq<Toast>)
    ensures |r| == |toasts| + 1
    ensures r[..|toasts|] == toasts
    ensures r[|toasts|].id == id && r[|toasts|].message == message && r[|toasts|].kind == kind
  {
    toasts + [Toast(id, message, kind)]
  }

  /** The filter condition of `RemoveToast`. */
  function OtherThan(id: int): Toast -> bool
  {
    (t: Toast) => t.id != id
  }

  /** The list after `removeToast(id)`. */
  function RemoveToast(toasts: seq<Toast>, id: int): (r: seq<Toast>)
    ensures forall t :: t in r <==> t in toasts && t.id != id
    ensures forall t: Toast :: t.id != id ==> multiset(r)[t] == multiset(toasts)[t]
    ensures IsSubsequence(r, toasts)
    ensures (forall i :: 0 <= i < |toasts| ==> toasts[i].id != id) ==> r == toasts
  {
    FilterMembers(toasts, OtherThan(id));
    FilterIsSubsequence(toasts, OtherThan(id));
    var r := Filter(toasts, OtherThan(id));
    if forall i :: 0 <= i < |toasts| ==> toasts[i].id != id then
      FilterAll(toasts, OtherThan(id));
      r
    else r
  }

  /** Dismissing a toast that was just added with an id no other toast
      carries gives back the list before the addition. */
  lemma RemoveAfterAdd(toasts: seq<Toast>, message: string, id: int, kind: ToastKind)
    requires forall i :: 0 <= i < |toasts| ==> toasts[i].id != id
    ensures RemoveToast(AddToast(toasts, message, id, kind), id) == toasts
  {
    var t := Toast(id, message, kind);
    FilterConcat(toasts, [t], OtherThan(id));
    FilterAll(toasts, OtherThan(id));
    assert Filter([t], OtherThan(id)) == [];
  }

  /** Removing by the same id a second time changes nothing. */
  lemma RemoveToastIdempotent(toasts: seq<Toast>, id: int)
    ensures RemoveToast(RemoveToast(toasts, id), id) == RemoveToast(toasts, id)
  {
    var r := RemoveToast(toasts, id);
    assert forall i :: 0 <= i < |r| ==> r[i] in r;
  }

  /** Dismissals commute: the list after removing two ids does not depend on
      the order of the removals. */
  lemma {:induction false} RemoveToastCommutes(toasts: seq<Toast>, a: int, b: int)
    ensures RemoveToast(RemoveToast(toasts, a), b) == RemoveToast(RemoveToast(toasts, b), a)
  {
    if toasts != [] {
      var t := toasts[0];
      var rest := toasts[1..];
      RemoveToastCommutes(rest, a, b);
      var ha := if t.id != a then [t] else [];
      var hb := if t.id != b then [t] else [];
      var hab := if t.id != a && t.id != b then [t] else [];
      FilterConcat(ha, RemoveToast(rest, a), OtherThan(b));
      FilterConcat(hb, RemoveToast(rest, b), OtherThan(a));
      assert Filter(ha, OtherThan(b)) == hab;
      assert Filter(hb, OtherThan(a)) == hab;
    }
  }

  /** Adding a toast and then dismissing a different id is the same as
      dismissing first and adding afterwards. */
  lemma AddThenRemoveOther(toasts: seq<Toast>, message: string, id: int, kind: ToastKind, other: int)
    requires other != id
    ensures RemoveToast(AddToast(toasts, message, id, kind), other) ==
            AddToast(RemoveToast(toasts, other), message, id, kind)
  {
    var t := Toast(id, message, kind);
    FilterConcat(toasts, [t], OtherThan(other));
    assert Filter([t], OtherThan(other)) == [t];
  }
}
