/**
 * The toast store: a counter for ids and the list of visible toasts, newest
 * first, truncated to TOAST_LIMIT.
 */
module Toasts {
  import opened Seqs

  const ToastLimit: nat := 1

  /** A toast: its id and its string properties (title, description, variant, ...). */
  datatype Toast = Toast(id: nat, props: map<string, string>)

  datatype ToastState = ToastState(toasts: seq<Toast>, count: nat)

  /** Every shown toast has an id already handed out, and no two share one. */
  predicate Valid(st: ToastState) {
    && (forall i :: 0 <= i < |st.toasts| ==> st.toasts[i].id <= st.count)
    && (forall i, j :: 0 <= i < j < |st.toasts| ==> st.toasts[i].id != st.toasts[j].id)
  }

  /** `generateId`: advance the counter and hand out its new value. */
  function GenerateId(st: ToastState): (result: (ToastState, nat))
    ensures var (after, id) := result;
      id == after.count && id > st.count && after.toasts == st.toasts
  {
    (st.(count := st.count + 1), st.count + 1)
  }

  /** Successive ids are distinct: each is larger than every earlier one. */
  lemma {:induction false} IdsIncrease(st: ToastState, n: nat)
    ensures forall k :: 0 <= k < n ==> IdAfter(st, k) < IdAfter(st, k + 1)
  {
    forall k | 0 <= k < n ensures IdAfter(st, k) < IdAfter(st, k + 1) {
      assert IdAfter(st, k + 1) == GenerateId(StateAfter(st, k)).1;
    }
  }

  /** The state after k ids were generated. */
  function StateAfter(st: ToastState, k: nat): (after: ToastState)
    ensures after.count == st.count + k && after.toasts == st.toasts
  {
    if k == 0 then st else GenerateId(StateAfter(st, k - 1)).0
  }

  /** The id handed out by the k-th generation (0 stands for the counter before any). */
  function IdAfter(st: ToastState, k: nat): nat {
    StateAfter(st, k).count
  }

  /** `[...].slice(0, n)`. */
  function Take<T>(xs: seq<T>, n: nat): (ys: seq<T>)
    ensures |ys| == if |xs| < n then |xs| else n
    ensures ys == xs[..|ys|]
  {
    if |xs| <= n then xs else xs[..n]
  }

  /** `toast(props)`: a fresh id, the new toast first, then the list cut to the limit. */
  function AddToast(st: ToastState, props: map<string, string>): (result: (ToastState, nat))
    ensures var (after, id) := result;
      && id > st.count && after.count == id
      && |after.toasts| <= ToastLimit
      && |after.toasts| > 0 && after.toasts[0] == Toast(id, props)
      && after.toasts[1..] == st.toasts[..|after.toasts| - 1]
  {
    var (next, id) := GenerateId(st);
    (next.(toasts := Take([Toast(id, props)] + st.toasts, ToastLimit)), id)
  }

  /** `update(props)`: merge the props into the toast with that id; nothing else changes. */
  function UpdateToast(st: ToastState, id: nat, props: map<string, string>): (after: ToastState)
    ensures after.count == st.count && |after.toasts| == |st.toasts|
    ensures forall i :: 0 <= i < |st.toasts| ==>
      after.toasts[i].id == st.toasts[i].id
      && (st.toasts[i].id != id ==> after.toasts[i] == st.toasts[i])
      && (st.toasts[i].id == id ==> after.toasts[i].props == st.toasts[i].props + props)
  {
    st.(toasts := seq(|st.toasts|, i requires 0 <= i < |st.toasts| =>
      var t := st.toasts[i];
      if t.id == id then t.(props := t.props + props) else t))
  }

  /** Updating a toast that is no longer shown does nothing. */
  lemma UpdateAbsentIsNoOp(st: ToastState, id: nat, props: map<string, string>)
    requires forall i :: 0 <= i < |st.toasts| ==> st.toasts[i].id != id
    ensures UpdateToast(st, id, props) == st
  {
  }

  /** `dismiss`: drop the toast with that id; the others stay in order. */
  function DismissToast(st: ToastState, id: nat): (after: ToastState)
    ensures after.count == st.count
    ensures forall t :: t in after.toasts <==> t in st.toasts && t.id != id
  {
    st.(toasts := Filter(st.toasts, (t: Toast) => t.id != id))
  }

  /** Dismissing twice is dismissing once. */
  lemma DismissIdempotent(st: ToastState, id: nat)
    ensures DismissToast(DismissToast(st, id), id) == DismissToast(st, id)
  {
    FilterIdempotent(st.toasts, (t: Toast) => t.id != id);
  }

  /** Every operation keeps the store valid, so toast ids never repeat. */
  lemma OperationsKeepValid(st: ToastState, props: map<string, string>, id: nat)
    requires Valid(st)
    ensures Valid(AddToast(st, props).0)
    ensures Valid(UpdateToast(st, id, props))
    ensures Valid(DismissToast(st, id))
  {
    var d := DismissToast(st, id).toasts;
    forall i, j | 0 <= i < j < |d| ensures d[i].id != d[j].id {
      DismissKeepsDistinct(st.toasts, id, i, j);
    }
    forall i | 0 <= i < |d| ensures d[i].id <= st.count {
      assert d[i] in st.toasts;
    }
  }

  lemma {:induction false} DismissKeepsDistinct(toasts: seq<Toast>, id: nat, i: nat, j: nat)
    requires forall a, b :: 0 <= a < b < |toasts| ==> toasts[a].id != toasts[b].id
    requires i < j < |Filter(toasts, (t: Toast) => t.id != id)|
    ensures Filter(toasts, (t: Toast) => t.id != id)[i].id != Filter(toasts, (t: Toast) => t.id != id)[j].id
  {
    var keep := (t: Toast) => t.id != id;
    var init := toasts[..|toasts| - 1];
    var last := toasts[|toasts| - 1];
    var front := Filter(init, keep);
    var d := Filter(toasts, keep);
    assert d == front + (if keep(last) then [last] else []);
    if j < |front| {
      DismissKeepsDistinct(init, id, i, j);
    } else {
      assert d[j] == last;
      assert d[i] in init;
    }
  }
}
