/** The node's private key on disk: its move from the config root to the data root, and its loading at every start. */
module NodeKey {
  import opened Bytes

  /**
   What one system call does: succeed, fail with an error, end the process, or store something else than it was given.
   A process that ends loses what a file not yet synced holds; `loss` is what is found there instead.
   */
  datatype Outcome = Fine | Fails | Crash(loss: ByteString) | Garbles(stored: ByteString)

  datatype Failure = IO | Ended | RootCopyKept | ReadsBackDifferent | Undecodable

  ghost predicate Honest(script: seq<Outcome>) {
    forall i :: 0 <= i < |script| ==> !script[i].Garbles?
  }

  ghost predicate AllFine(script: seq<Outcome>) {
    forall i :: 0 <= i < |script| ==> script[i] == Fine
  }

  /** Every call of one start succeeds. */
  ghost predicate FullRun(script: seq<Outcome>) {
    AllFine(script) && |script| >= 21
  }

  /** With a copy in both roots: everything succeeds up to the removal, which fails. */
  ghost predicate RemovalFails(script: seq<Outcome>) {
    |script| > 4 && (forall i :: 0 <= i < 4 ==> script[i] == Fine) && script[4] == Fails
  }

  /** What is left of a script after at most `n` calls. */
  ghost predicate Tail(script: seq<Outcome>, script': seq<Outcome>, n: nat) {
    && |script| <= |script'| + n
    && (Honest(script) ==> Honest(script'))
    && (AllFine(script) ==> AllFine(script'))
  }

  class Disk {
    /** Both names lead to one file: one directory is behind both roots, or a link. */
    const sameFile: bool
    var root: Option<ByteString>
    var data: Option<ByteString>
    var synced: bool
    var temp: ByteString
    var tempSynced: bool
    /** What the coming system calls do; the process ends at the latest when it is used up. */
    var script: seq<Outcome>
    var running: bool

    constructor (sameFile: bool, root: Option<ByteString>, data: Option<ByteString>)
      requires sameFile ==> root == data
      ensures Valid() && running && this.sameFile == sameFile && this.root == root && this.data == data
    {
      this.sameFile, this.root, this.data := sameFile, root, data;
      synced, temp, tempSynced, script, running := true, [], false, [], true;
    }

    ghost predicate Valid()
      reads this
    {
      synced && (sameFile ==> root == data)
    }

    /** The key in use: the data root's, or else the one still to be moved there. */
    ghost function Identity(): Option<ByteString>
      reads this
    {
      if data.Some? then data else root
    }

    ghost predicate Holds(key: ByteString)
      reads this
    {
      root == Some(key) || data == Some(key)
    }

    /** One system call; a process that has ended makes none. */
    method Call() returns (o: Outcome)
      requires running
      modifies this`script, this`running, this`data, this`root
      ensures Tail(old(script), script, 1) && (running <==> !o.Crash?)
      ensures if old(script) == [] then o.Crash? else o == old(script)[0] && script == old(script)[1..]
      ensures AllFine(old(script)) ==> o == Fine || old(script) == []
      ensures Honest(old(script)) ==> !o.Garbles?
      ensures old(Valid()) ==> data == old(data) && root == old(root)
    {
      if script == [] {
        o := Crash([]);
      } else {
        o := script[0];
        script := script[1..];
      }
      running := !o.Crash?;
      if o.Crash? && !synced && data.Some? {
        data := Some(o.loss);
        root := if sameFile then data else root;
      }
    }

    /** A call that stores nothing: it succeeds, fails or ends the process. */
    method Sys() returns (f: Option<Failure>)
      requires Valid() && running
      modifies this`script, this`running, this`data, this`root
      ensures Tail(old(script), script, 1) && data == old(data) && root == old(root)
      ensures (running <==> f != Some(Ended)) && (f == None || f == Some(IO) || f == Some(Ended))
      ensures AllFine(old(script)) && old(script) != [] ==> f == None
      ensures old(script) != [] ==> script == old(script)[1..]
      ensures old(script) != [] && old(script)[0] == Fine ==> f == None
      ensures old(script) != [] && old(script)[0] == Fails ==> f == Some(IO)
    {
      var o := Call();
      f := if o.Crash? then Some(Ended) else if o.Fails? then Some(IO) else None;
    }

    /** Nothing of the temporary file is lost any more once this succeeds. */
    method SyncTemp() returns (f: Option<Failure>)
      requires Valid() && running
      modifies this`script, this`running, this`data, this`root, this`tempSynced
      ensures Tail(old(script), script, 1) && data == old(data) && root == old(root)
      ensures (running <==> f != Some(Ended)) && (f == None || f == Some(IO) || f == Some(Ended))
      ensures tempSynced <==> old(tempSynced) || f.None?
      ensures AllFine(old(script)) && old(script) != [] ==> f == None
    {
      f := Sys();
      tempSynced := tempSynced || f.None?;
    }

    /** Fills the temporary file. */
    method WriteTemp(bytes: ByteString) returns (f: Option<Failure>)
      requires Valid() && running
      modifies this`script, this`running, this`data, this`root, this`temp, this`tempSynced
      ensures Tail(old(script), script, 3) && data == old(data) && root == old(root)
      ensures (running <==> f != Some(Ended)) && (f == None || f == Some(IO) || f == Some(Ended))
      ensures f.None? ==> tempSynced && (Honest(old(script)) ==> temp == bytes)
      ensures AllFine(old(script)) && |old(script)| >= 3 ==> f == None
    {
      tempSynced := false;
      var o := Call();
      temp := if o.Garbles? then o.stored else if o == Fine then bytes else [];
      if o.Crash? {
        return Some(Ended);
      }
      f := if o.Fails? then Some(IO) else None;
      if f.None? {
        f := SyncTemp();
        if f == Some(Ended) {
          return;
        }
      }
      var closed := Sys();
      if f.None? || closed == Some(Ended) {
        f := closed;
      }
    }

    /** Puts complete bytes in the data root or leaves it as it was. */
    method WriteData(bytes: ByteString) returns (f: Option<Failure>)
      requires Valid() && running
      modifies this`script, this`running, this`data, this`root, this`temp, this`tempSynced, this`synced
      ensures Valid() && Tail(old(script), script, 7)
      ensures (running <==> f != Some(Ended)) && (f == None || f == Some(IO) || f == Some(Ended))
      ensures (data == old(data) && root == old(root)) || (data.Some? && root == if sameFile then data else old(root))
      ensures Honest(old(script)) ==> data == old(data) || data == Some(bytes)
      ensures f.None? ==> data.Some? && (Honest(old(script)) ==> data == Some(bytes))
      ensures AllFine(old(script)) && |old(script)| >= 7 ==> f == None
    {
      f := Sys();
      if f.Some? {
        return;
      }
      f := Sys();
      if f.Some? {
        return;
      }
      f := WriteTemp(bytes);
      if f.None? {
        f := Sys();
        if f.None? {
          data, synced := Some(temp), tempSynced;
          root := if sameFile then data else root;
        }
      }
      if f != Some(Ended) {
        var removed := Sys();
        f := if removed == Some(Ended) then removed else f;
      }
    }

    method CopyToDataRoot() returns (f: Option<Failure>)
      requires Valid() && running && root.Some? && data.None?
      modifies this`script, this`running, this`data, this`root, this`temp, this`tempSynced, this`synced
      ensures Valid() && Tail(old(script), script, 9) && root == old(root)
      ensures f.None? ==> data == root
      ensures f != Some(RootCopyKept) && (running <==> f != Some(Ended))
      ensures Honest(old(script)) ==> data == None || data == root
      ensures AllFine(old(script)) && |old(script)| >= 9 ==> f == None
    {
      f := Sys();
      if f.Some? {
        return;
      }
      var bytes := root.value;
      f := WriteData(bytes);
      if f.Some? {
        return;
      }
      f := Sys();
      if f.Some? {
        return;
      }
      if data != Some(bytes) {
        return Some(ReadsBackDifferent);
      }
    }

    method MatchDataRootCopy() returns (f: Option<Failure>)
      requires Valid() && running && root.Some? && data.Some?
      modifies this`script, this`running, this`data, this`root
      ensures Valid() && Tail(old(script), script, 2) && root == old(root) && data == old(data)
      ensures running <==> f != Some(Ended)
      ensures f.None? ==> data == root
      ensures |old(script)| >= 2 && old(script)[0] == Fine == old(script)[1] ==>
        script == old(script)[2..] && f == if data == root then None else Some(RootCopyKept)
    {
      f := Sys();
      if f.Some? {
        return;
      }
      f := Sys();
      if f.Some? {
        return;
      }
      if root != data {
        return Some(RootCopyKept);
      }
    }

    /** The root's copy goes only once the data root's copy is equal to it. */
    method MoveToDataRoot() returns (f: Option<Failure>)
      requires Valid() && running
      modifies this`script, this`running, this`data, this`root, this`temp, this`tempSynced, this`synced
      ensures Valid() && Tail(old(script), script, 12) && (running <==> f != Some(Ended))
      ensures old(data).Some? ==> data == old(data)
      ensures root == old(root) || (root == None && data == old(root) && !sameFile)
      ensures f.None? || f == Some(RootCopyKept) ==> old(root).None? || data.Some?
      ensures old(root).None? ==> data == old(data)
      ensures Honest(old(script)) && old(data).None? ==> data == None || data == old(root)
      ensures AllFine(old(script)) && |old(script)| >= 12 ==>
        && (f.None? || f == Some(RootCopyKept))
        && (root.Some? ==> sameFile || (old(data).Some? && old(data) != old(root)))
      // a copy that cannot be removed is only reported
      ensures old(data).Some? && old(data) == old(root) && !sameFile && RemovalFails(old(script)) ==>
        f == Some(RootCopyKept)
    {
      f := Sys();
      if f.Some? {
        return;
      }
      if root.None? {
        return;
      }
      f := Sys();
      if f.Some? {
        return;
      }
      if data.None? {
        f := CopyToDataRoot();
      } else if sameFile {
        return None;
      } else {
        f := MatchDataRootCopy();
      }
      if f.Some? {
        return;
      }
      f := Sys();
      if f.Some? {
        f := if f == Some(IO) then Some(RootCopyKept) else f;
        return;
      }
      root := None;
    }

    method LoadIdentity(newKey: ByteString, decodes: ByteString -> bool)
        returns (key: Option<ByteString>, f: Option<Failure>)
      requires Valid() && running
      modifies this`script, this`running, this`data, this`root, this`temp, this`tempSynced, this`synced
      ensures Valid() && Tail(old(script), script, 8) && (key.None? <==> f.Some?)
      ensures running <==> f != Some(Ended)
      ensures old(data).Some? ==> data == old(data) && root == old(root)
      ensures root == if sameFile then data else old(root)
      ensures Honest(old(script)) ==> data == old(data) || data == Some(newKey)
      ensures Honest(old(script)) && key.Some? ==> data == key
      ensures key.Some? ==> if old(data).Some? then key == old(data) && decodes(key.value) else key == Some(newKey)
      ensures AllFine(old(script)) && |old(script)| >= 8 && data.Some? && decodes(data.value) ==> key == data
      ensures AllFine(old(script)) && |old(script)| >= 8 && old(data).None? ==> key == Some(newKey) == data
    {
      key := None;
      f := Sys();
      if f.Some? {
        return;
      }
      if data.Some? {
        if !decodes(data.value) {
          return None, Some(Undecodable);
        }
        return data, None;
      }
      f := WriteData(newKey);
      if f.None? {
        key := Some(newKey);
      }
    }

    /** One start of the node, up to the identity it runs under. */
    method Start(newKey: ByteString, decodes: ByteString -> bool) returns (key: Option<ByteString>)
      requires Valid()
      modifies this`script, this`running, this`data, this`root, this`temp, this`tempSynced, this`synced
      ensures Valid()
      // whatever happens, no stored key is lost and a key in the data root is never replaced
      ensures forall k :: old(Holds(k)) ==> Holds(k)
      ensures old(data).Some? ==> data == old(data)
      ensures sameFile && old(root).Some? ==> root == old(root) && data == old(data)
      // as long as what is written is what is stored, the key in use never changes and is the one a start runs under
      ensures Honest(old(script)) && old(Identity()).Some? ==> Identity() == old(Identity())
      ensures Honest(old(script)) && key.Some? ==> data == key
      // a full run of every call leaves a key of the config root alone in the data root
      ensures FullRun(old(script)) && old(root).Some? && (old(data).None? || old(data) == old(root)) && !sameFile ==>
        data == old(root) && root == None && (decodes(old(root).value) ==> key == old(root))
      ensures FullRun(old(script)) && old(data).Some? && decodes(old(data).value) ==> key == old(data)
      ensures key.Some? && old(data).Some? ==> decodes(key.value)
      ensures FullRun(old(script)) && old(root).None? && old(data).None? ==> key == Some(newKey) == data
      ensures !sameFile ==> root == old(root) || root == None
    {
      running := true;
      var f := Sys();
      if f.Some? {
        return None;
      }
      f := MoveToDataRoot();
      if f.Some? && f != Some(RootCopyKept) {
        return None;
      }
      key, f := LoadIdentity(newKey, decodes);
    }
  }

  ghost predicate AllHonest(scripts: seq<seq<Outcome>>) {
    forall i :: 0 <= i < |scripts| ==> Honest(scripts[i])
  }

  /** Any number of starts, each ending at any call: the key survives and every start that succeeds runs under it. */
  method Starts(disk: Disk, scripts: seq<seq<Outcome>>, newKeys: seq<ByteString>, decodes: ByteString -> bool)
    returns (keys: seq<Option<ByteString>>)
    requires disk.Valid() && |newKeys| == |scripts|
    modifies disk
    ensures disk.Valid() && |keys| == |scripts|
    ensures forall k :: old(disk.Holds(k)) ==> disk.Holds(k)
    ensures AllHonest(scripts) && old(disk.Identity()).Some? ==> disk.Identity() == old(disk.Identity())
    ensures !disk.sameFile ==> disk.root == old(disk.root) || disk.root == None
    ensures AllHonest(scripts) ==>
      forall i, j :: 0 <= i < j < |keys| && keys[i].Some? && keys[j].Some? ==> keys[i] == keys[j]
    ensures AllHonest(scripts) && old(disk.Identity()).Some? ==>
      forall i :: 0 <= i < |keys| && keys[i].Some? ==> keys[i] == old(disk.Identity())
  {
    keys := [];
    for n := 0 to |scripts|
      invariant disk.Valid() && |keys| == n
      invariant forall k :: old(disk.Holds(k)) ==> disk.Holds(k)
      invariant !disk.sameFile ==> disk.root == old(disk.root) || disk.root == None
      invariant AllHonest(scripts) && old(disk.Identity()).Some? ==> disk.Identity() == old(disk.Identity())
      invariant AllHonest(scripts) ==> forall i :: 0 <= i < n && keys[i].Some? ==> disk.Identity() == keys[i]
    {
      disk.script := scripts[n];
      var key := disk.Start(newKeys[n], decodes);
      keys := keys + [key];
    }
  }

  /**
   A key left in the config root by an earlier version: after any starts and one full run it is in the data
   root only.
   */
  method LegacyKeySettles(key: ByteString, scripts: seq<seq<Outcome>>, newKeys: seq<ByteString>, last: seq<Outcome>,
                          lastKey: ByteString, decodes: ByteString -> bool)
      returns (disk: Disk, used: Option<ByteString>)
    requires |newKeys| == |scripts| && AllHonest(scripts) && FullRun(last) && decodes(key)
    ensures fresh(disk) && disk.data == Some(key) && disk.root == None && used == Some(key)
  {
    disk := new Disk(false, Some(key), None);
    var keys := Starts(disk, scripts, newKeys, decodes);
    disk.script := last;
    used := disk.Start(lastKey, decodes);
  }
}
