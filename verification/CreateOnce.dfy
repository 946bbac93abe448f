/** Several processes each asking for one key file, to be loaded if it is there
    and created if it is not. Every file operation is one atomic step, and the
    steps of different processes interleave in any order. */
module CreateOnce {
  import opened Bytes
  import opened Primitives
  import opened TextStore
  import opened KeyContainer

  /** What the processes share but do not change: the hash, the protector of
      payloads and its inverse, the key kind, and which blobs are keys. */
  datatype Setting = Setting(sha: Sha, kind: KeyKind,
                             protect: (Protection, Octets) -> Option<Octets>,
                             unprotect: (Protection, Octets) -> Option<Octets>,
                             isKey: Octets -> bool)

  /** Unprotecting what was protected gives the key back. */
  ghost predicate Lawful(c: Setting) {
    IsSha(c.sha) &&
    forall p, k :: c.protect(p, k).Some? ==> c.unprotect(p, c.protect(p, k).value) == Some(k)
  }

  datatype Stage =
    | Loading
    | Generating
    | Saving(key: Octets)
    | Reloading
    | Finished(r: IdResult, held: Option<Octets>, created: bool)

  datatype World = World(file: Option<Octets>, procs: seq<Stage>)

  /** The file, parsed, unprotected and imported, gives this key. */
  ghost predicate Gives(c: Setting, file: Octets, key: Octets) {
    exists p, blob :: PayloadOk(blob) && file == Container(c.sha, p, c.kind, blob)
                      && c.unprotect(p, blob) == Some(key) && c.isKey(key)
  }

  lemma GivesOneKey(c: Setting, file: Octets, k: Octets, l: Octets)
    requires IsSha(c.sha) && Gives(c, file, k) && Gives(c, file, l)
    ensures k == l
  {
    var p, blob :| PayloadOk(blob) && file == Container(c.sha, p, c.kind, blob)
                   && c.unprotect(p, blob) == Some(k) && c.isKey(k);
    var q, other :| PayloadOk(other) && file == Container(c.sha, q, c.kind, other)
                    && c.unprotect(q, other) == Some(l) && c.isKey(l);
    ContainerInjective(c.sha, p, c.kind, blob, q, c.kind, other);
  }

  /** A failure that is not the file's absence. */
  predicate Fails(s: Stage) { s.Finished? && !s.r.IdOk? && s.held.None? && !s.created }

  /** Reading the file: its key, or a failure. */
  ghost predicate Loads(c: Setting, file: Octets, after: Stage) {
    || Fails(after)
    || (after.Finished? && after.r.IdOk? && !after.created && after.held.Some? && Gives(c, file, after.held.value))
  }

  ghost predicate Step(c: Setting, w: World, v: World, i: nat)
    requires i < |w.procs|
  {
    && |v.procs| == |w.procs| && v.procs == w.procs[i := v.procs[i]]
    && var s, t := w.procs[i], v.procs[i];
       match s
       case Loading =>
         v.file == w.file && if w.file.None? then t.Generating? || Fails(t) else Loads(c, w.file.value, t)
       case Generating =>
         v.file == w.file && (Fails(t) || (t.Saving? && c.isKey(t.key)))
       case Saving(key) =>
         || (v.file == w.file && Fails(t))
         || (v.file == w.file && w.file.Some? && t.Reloading?)
         || (w.file.None? && Creates(c, v.file, key) && t == Stage.Finished(IdOk, Some(key), true))
       case Reloading =>
         v.file == w.file && if w.file.None? then Fails(t) else Loads(c, w.file.value, t)
       case Finished(_, _, _) => false
  }

  /** The exclusive create put in place the container of `key` under some
      protection that accepted it. */
  ghost predicate Creates(c: Setting, file: Option<Octets>, key: Octets) {
    exists p :: c.protect(p, key).Some? && PayloadOk(c.protect(p, key).value)
                && file == Some(Container(c.sha, p, c.kind, c.protect(p, key).value))
  }

  predicate Starts(w: World) { forall i :: 0 <= i < |w.procs| ==> w.procs[i].Loading? }

  ghost predicate Next(c: Setting, w: World, v: World) {
    exists i :: 0 <= i < |w.procs| && Step(c, w, v, i)
  }

  ghost predicate Run(c: Setting, ws: seq<World>) {
    && |ws| > 0 && Starts(ws[0])
    && forall n :: 0 <= n < |ws| - 1 ==> Next(c, ws[n], ws[n + 1])
  }

  predicate Succeeded(s: Stage) { s.Finished? && s.r.IdOk? }

  predicate Made(s: Stage) { s.Finished? && s.created }

  /** What every step keeps. `born` says whether the file was there at the start. */
  ghost predicate Inv(c: Setting, w: World, born: bool) {
    && (forall i :: 0 <= i < |w.procs| && w.procs[i].Saving? ==> c.isKey(w.procs[i].key))
    && (forall i :: 0 <= i < |w.procs| && Succeeded(w.procs[i]) ==>
          w.file.Some? && w.procs[i].held.Some? && Gives(c, w.file.value, w.procs[i].held.value))
    && (forall i :: 0 <= i < |w.procs| && Made(w.procs[i]) ==> w.file.Some? && !born && Succeeded(w.procs[i]))
    && (forall i, j :: 0 <= i < j < |w.procs| && Made(w.procs[i]) ==> !Made(w.procs[j]))
    && (born ==> w.file.Some?)
  }

  lemma CreatesGives(c: Setting, file: Option<Octets>, key: Octets)
    requires Lawful(c) && Creates(c, file, key) && c.isKey(key)
    ensures file.Some? && Gives(c, file.value, key)
  {
    var p :| c.protect(p, key).Some? && PayloadOk(c.protect(p, key).value)
             && file == Some(Container(c.sha, p, c.kind, c.protect(p, key).value));
    var blob := c.protect(p, key).value;
    assert c.unprotect(p, blob) == Some(key);
  }

  lemma StepKeeps(c: Setting, w: World, v: World, i: nat, born: bool)
    requires Lawful(c) && Inv(c, w, born) && i < |w.procs| && Step(c, w, v, i)
    ensures Inv(c, v, born) && (w.file.Some? ==> v.file == w.file)
  {
    if w.procs[i].Saving? && w.file.None? && Made(v.procs[i]) {
      CreatesGives(c, v.file, w.procs[i].key);
    }
    forall j | 0 <= j < |v.procs| && j != i
      ensures v.procs[j] == w.procs[j]
    {
    }
  }

  lemma NextKeeps(c: Setting, w: World, v: World, born: bool)
    requires Lawful(c) && Inv(c, w, born) && Next(c, w, v)
    ensures Inv(c, v, born) && (w.file.Some? ==> v.file == w.file) && |v.procs| == |w.procs|
  {
    var i :| 0 <= i < |w.procs| && Step(c, w, v, i);
    StepKeeps(c, w, v, i, born);
  }

  lemma {:induction false} RunKeeps(c: Setting, ws: seq<World>, m: nat)
    requires Lawful(c) && Run(c, ws) && m < |ws|
    ensures Inv(c, ws[m], ws[0].file.Some?)
    ensures ws[0].file.Some? ==> ws[m].file == ws[0].file
    ensures |ws[m].procs| == |ws[0].procs|
  {
    if m > 0 {
      RunKeeps(c, ws, m - 1);
      NextKeeps(c, ws[m - 1], ws[m], ws[0].file.Some?);
    }
  }

  /** The file never changes once it is there. */
  lemma {:induction false} FileNeverChanges(c: Setting, ws: seq<World>, m: nat, n: nat)
    requires Lawful(c) && Run(c, ws) && m <= n < |ws| && ws[m].file.Some?
    ensures ws[n].file == ws[m].file
    decreases n
  {
    if m < n {
      FileNeverChanges(c, ws, m, n - 1);
      RunKeeps(c, ws, n - 1);
      NextKeeps(c, ws[n - 1], ws[n], ws[0].file.Some?);
    }
  }

  /** In every run, for any number of processes: all that succeed hold the one key
      the file gives, and at most one says it created it, none when the file was
      there before. */
  lemma OneKeyForAll(c: Setting, ws: seq<World>, m: nat, i: nat, j: nat)
    requires Lawful(c) && Run(c, ws) && m < |ws| && i < |ws[m].procs| && j < |ws[m].procs|
    requires Succeeded(ws[m].procs[i]) && Succeeded(ws[m].procs[j])
    ensures ws[m].procs[i].held == ws[m].procs[j].held && ws[m].procs[i].held.Some?
    ensures ws[m].file.Some? && Gives(c, ws[m].file.value, ws[m].procs[i].held.value)
    ensures Made(ws[m].procs[i]) && Made(ws[m].procs[j]) ==> i == j && ws[0].file.None?
  {
    RunKeeps(c, ws, m);
    GivesOneKey(c, ws[m].file.value, ws[m].procs[i].held.value, ws[m].procs[j].held.value);
  }
}
