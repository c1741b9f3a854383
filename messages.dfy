/** The texts of the errors the injector throws. A type's name (the class's
    `name` property) is a given function `name`. */
module Messages {
  import opened Definitions

  /** `parts` with `sep` between neighbours, as `Array.prototype.join`. */
  function Join(parts: seq<string>, sep: string): string
    decreases |parts|
  {
    if parts == [] then ""
    else if |parts| == 1 then parts[0]
    else parts[0] + sep + Join(parts[1..], sep)
  }

  /** What precedes the k-th part in `Join(parts, sep)`: the earlier parts,
      joined, and one separator. */
  function Before(parts: seq<string>, sep: string, k: nat): string
    requires k <= |parts|
  {
    if k == 0 then "" else Join(parts[..k], sep) + sep
  }

  /** What follows the k-th part: one separator and the later parts, joined. */
  function After(parts: seq<string>, sep: string, k: nat): string
    requires k < |parts|
  {
    if k + 1 == |parts| then "" else sep + Join(parts[k + 1..], sep)
  }

  /** Joining two non-empty lists is joining each and putting one
      separator between the results. */
  lemma {:induction false} JoinConcat(a: seq<string>, b: seq<string>, sep: string)
    requires a != [] && b != []
    ensures Join(a + b, sep) == Join(a, sep) + sep + Join(b, sep)
    decreases |a|
  {
    assert (a + b)[0] == a[0];
    assert (a + b)[1..] == a[1..] + b;
    if |a| > 1 {
      JoinConcat(a[1..], b, sep);
    }
  }

  lemma JoinFrom(parts: seq<string>, sep: string, k: nat)
    requires k < |parts|
    ensures Join(parts[k..], sep) == parts[k] + After(parts, sep, k)
  {
    if k + 1 < |parts| {
      assert parts[k..] == [parts[k]] + parts[k + 1..];
      JoinConcat([parts[k]], parts[k + 1..], sep);
      Regroup(parts[k], sep, Join(parts[k + 1..], sep));
    } else {
      assert parts[k..] == [parts[k]];
    }
  }

  lemma Regroup(a: string, b: string, c: string)
    ensures a + b + c == a + (b + c)
  {
  }

  /** The joined text is every part, in order, with the separator between
      neighbours: around the k-th part stand the parts before it and the
      parts after it. */
  lemma JoinSplit(parts: seq<string>, sep: string, k: nat)
    requires k < |parts|
    ensures Join(parts, sep) == Before(parts, sep, k) + parts[k] + After(parts, sep, k)
  {
    JoinFrom(parts, sep, k);
    var tail := parts[k] + After(parts, sep, k);
    if k == 0 {
      assert parts[0..] == parts;
      assert Join(parts, sep) == tail;
      assert Before(parts, sep, k) == "";
      Regroup("", parts[k], After(parts, sep, k));
    } else {
      assert parts == parts[..k] + parts[k..];
      JoinConcat(parts[..k], parts[k..], sep);
      var head := Join(parts[..k], sep);
      assert Join(parts, sep) == head + sep + tail;
      Regroup(head + sep, parts[k], After(parts, sep, k));
    }
  }

  /** The names of a list of types. */
  function Names(name: TypeId -> string, ts: seq<TypeId>): seq<string> {
    seq(|ts|, i requires 0 <= i < |ts| => name(ts[i]))
  }

  /** How the cycle error shows one pending entry: `Name (-> Dep1,Dep2)`. */
  function EntryText(name: TypeId -> string, e: Entry): string {
    name(e.typeId) + " (-> " + Join(Names(name, e.dependencies), ",") + ")"
  }

  /** The texts of a list of pending entries. */
  function EntryTexts(name: TypeId -> string, es: seq<Entry>): seq<string> {
    seq(|es|, i requires 0 <= i < |es| => EntryText(name, es[i]))
  }

  /** The cycle error's opening, "Dependency cycle detected: Failed to resolve ".
      It is kept in two literals so that the verifier can read its first
      character, which tells it apart from the "Type " error. */
  const CyclePrefix := "Dependency " + "cycle detected: Failed to resolve "
  const NotInjectableSuffix := " is not injectable"

  /** The text of the cycle error for the entries still pending. */
  function CycleText(name: TypeId -> string, es: seq<Entry>): string {
    CyclePrefix + Join(EntryTexts(name, es), ", ")
  }

  /** The message of each error: its first word tells a missing type from
      the other two, and the two discovery errors end alike. */
  function Message(name: TypeId -> string, err: Error): (m: string)
    ensures err.NotInjectable? <==> |m| >= 5 && m[..5] == "Type "
    ensures err.DependencyCycle? ==> CyclePrefix <= m
    ensures !err.DependencyCycle? ==>
      |m| >= |NotInjectableSuffix| && m[|m| - |NotInjectableSuffix|..] == NotInjectableSuffix
  {
    match err
    case NotInjectable(t) => "Type " + name(t) + NotInjectableSuffix
    case DependencyNotInjectable(d, t) =>
      var m := "Dependency " + name(d) + " of " + name(t) + NotInjectableSuffix;
      assert m[0] == 'D';
      m
    case DependencyCycle(es) =>
      var m := CycleText(name, es);
      assert CyclePrefix[0] == 'D';
      assert m[0] == 'D';
      m
  }

  /** The cycle message lists every pending entry as `Name (-> deps)`, in
      discovery order, separated by ", ": around the k-th entry stand the
      entries before it and the entries after it. */
  lemma CycleMessageLists(name: TypeId -> string, es: seq<Entry>, k: nat)
    requires k < |es|
    ensures var parts := EntryTexts(name, es);
      Message(name, DependencyCycle(es))
        == CyclePrefix + Before(parts, ", ", k) + EntryText(name, es[k]) + After(parts, ", ", k)
  {
    var parts := EntryTexts(name, es);
    var before, after := Before(parts, ", ", k), After(parts, ", ", k);
    JoinSplit(parts, ", ", k);
    assert Message(name, DependencyCycle(es)) == CyclePrefix + Join(parts, ", ");
    Regroup(before, parts[k], after);
    Regroup(CyclePrefix, before, parts[k] + after);
    Regroup(CyclePrefix + before, parts[k], after);
  }
}
