/** open_file in bootstrap/file_io.c over its name buffer, with strprefix and
    ovbcopy of bootstrap/strfcns.c. */
module PathBuffer {
  import opened Paths

  // ---- copying within a buffer ----

  /** bcopy, low addresses first. It is right as long as no byte is overwritten
      before it is read. */
  method Bcopy(buf: array<Char>, from: nat, to: nat, bytes: nat)
    requires from + bytes <= buf.Length && to + bytes <= buf.Length
    requires to <= from || from + bytes <= to
    modifies buf
    ensures forall j :: to <= j < to + bytes ==> buf[j] == old(buf[from + (j - to)])
    ensures forall i :: 0 <= i < buf.Length && !(to <= i < to + bytes) ==> buf[i] == old(buf[i])
  {
    var k := 0;
    while k < bytes
      invariant 0 <= k <= bytes
      invariant forall j :: to <= j < to + k ==> buf[j] == old(buf[from + (j - to)])
      invariant forall i :: 0 <= i < buf.Length && !(to <= i < to + k) ==> buf[i] == old(buf[i])
      modifies buf
    {
      buf[to + k] := buf[from + k];
      k := k + 1;
    }
  }

  /** ovbcopy: right for every overlap. */
  method OverlappingCopy(buf: array<Char>, from: nat, to: nat, bytes: nat)
    requires from + bytes <= buf.Length && to + bytes <= buf.Length
    modifies buf
    ensures forall j :: to <= j < to + bytes ==> buf[j] == old(buf[from + (j - to)])
    ensures forall i :: 0 <= i < buf.Length && !(to <= i < to + bytes) ==> buf[i] == old(buf[i])
  {
    if from + bytes <= to || to + bytes <= from || to == from {
      Bcopy(buf, from, to, bytes);
    } else if from > to {
      Bcopy(buf, from, to, bytes);
    } else {
      var left := bytes;
      while left > 0
        invariant 0 <= left <= bytes
        invariant forall j :: to + left <= j < to + bytes ==> buf[j] == old(buf[from + (j - to)])
        invariant forall i :: 0 <= i < buf.Length && !(to + left <= i < to + bytes) ==> buf[i] == old(buf[i])
        modifies buf
      {
        left := left - 1;
        buf[to + left] := buf[from + left];
      }
    }
  }

  // ---- strings in a buffer ----

  /** The C string at cp. */
  ghost predicate StringAt(buf: seq<Char>, cp: nat, s: Name) {
    && cp + |s| < |buf| && buf[cp..cp + |s|] == s && buf[cp + |s|] == NUL
    && forall i :: 0 <= i < |s| ==> s[i] != NUL
  }

  lemma CharAt(buf: seq<Char>, cp: nat, s: Name, i: nat)
    requires StringAt(buf, cp, s) && i <= |s|
    ensures cp + i < |buf|
    ensures buf[cp + i] == if i < |s| then s[i] else NUL
    ensures buf[cp + i] == NUL <==> i == |s|
  {
    assert i < |s| ==> buf[cp..cp + |s|][i] == buf[cp + i];
  }

  method StringLength(buf: array<Char>, cp: nat, ghost s: Name) returns (n: nat)
    requires StringAt(buf[..], cp, s)
    ensures n == |s|
  {
    n := 0;
    while buf[cp + n] != NUL
      invariant n <= |s|
      decreases |s| - n
    {
      CharAt(buf[..], cp, s, n);
      n := n + 1;
    }
    CharAt(buf[..], cp, s, n);
  }

  /** strprefix */
  method HasPrefix(buf: array<Char>, cp: nat, ghost s: Name, prefix: Name) returns (yes: bool)
    requires StringAt(buf[..], cp, s) && forall i :: 0 <= i < |prefix| ==> prefix[i] != NUL
    ensures yes == IsPrefix(prefix, s)
  {
    var i := 0;
    while i < |prefix|
      invariant 0 <= i <= |prefix| && i <= |s| && prefix[..i] == s[..i]
    {
      CharAt(buf[..], cp, s, i);
      if prefix[i] != buf[cp + i] {
        return false;
      }
      i := i + 1;
    }
    assert prefix[..|prefix|] == prefix;
    yes := true;
  }

  /** The symbolic link step: the text of the link goes in front of what is left
      of the name, wherever that lies in the buffer. */
  method Splice(buf: array<Char>, cp: nat, text: Name, ghost rest: Name)
    requires buf.Length == MAXPATHLEN + 1 && StringAt(buf[..], cp, rest)
    requires |text| + |rest| + 1 < MAXPATHLEN - 1
    modifies buf
    ensures |text| + |rest| + 1 < buf.Length && buf[..|text| + |rest| + 1] == text + rest + [NUL]
    ensures StringAt(buf[..], 0, CString(text + rest))
  {
    var len := StringLength(buf, cp, rest);
    len := len + 1;
    OverlappingCopy(buf, cp, |text|, len);
    forall i: nat | i <= |rest| ensures buf[|text| + i] == if i < |rest| then rest[i] else NUL {
      CharAt(old(buf[..]), cp, rest, i);
    }
    CopyIn(buf, text);
    assert buf[..|text| + |rest| + 1] == text + rest + [NUL];
    hide StringAt;
    CutAtNul(buf[..], text + rest);
  }

  /** The bcopy from the block that holds the text of a link. */
  method CopyIn(buf: array<Char>, text: Name)
    requires |text| <= buf.Length
    modifies buf
    ensures forall i :: 0 <= i < buf.Length ==> buf[i] == if i < |text| then text[i] else old(buf[i])
  {
    var i := 0;
    while i < |text|
      invariant 0 <= i <= |text|
      invariant forall j :: 0 <= j < buf.Length ==> buf[j] == if j < i then text[j] else old(buf[j])
      modifies buf
    {
      buf[i] := text[i];
      i := i + 1;
    }
  }

  lemma CutAtNul(buf: seq<Char>, s: Name)
    requires |s| < |buf| && buf[..|s| + 1] == s + [NUL]
    ensures StringAt(buf, 0, CString(s))
  {
    var c := CString(s);
    assert buf[..|s|] == buf[..|s| + 1][..|s|] && buf[|s|] == buf[..|s| + 1][|s|];
    assert buf[..|c|] == s[..|c|] == c;
    assert |c| < |s| ==> buf[|c|] == s[|c|];
  }

  // ---- the pieces of a name ----

  lemma Shifted(buf: seq<Char>, cp: nat, s: Name, n: nat)
    requires StringAt(buf, cp, s) && n <= |s|
    ensures StringAt(buf, cp + n, s[n..]) && buf[cp..cp + n] == s[..n]
  {
    assert buf[cp..cp + |s|][n..] == buf[cp + n..cp + n + |s[n..]|];
    assert buf[cp..cp + |s|][..n] == buf[cp..cp + n];
  }

  lemma {:induction false} SlashesAre(s: Name, n: nat)
    requires n <= |s| && (forall i :: 0 <= i < n ==> s[i] == SLASH) && (n < |s| ==> s[n] != SLASH)
    ensures Slashes(s) == n
  {
    if n > 0 { SlashesAre(s[1..], n - 1); }
  }

  lemma {:induction false} PartIs(s: Name, n: nat)
    requires n <= |s| && (forall i :: 0 <= i < n ==> s[i] != SLASH) && (n < |s| ==> s[n] == SLASH)
    ensures Part(s) == n
  {
    if n > 0 { PartIs(s[1..], n - 1); }
  }

  method SkipSlashes(buf: array<Char>, start: nat, ghost s: Name) returns (cp: nat)
    requires StringAt(buf[..], start, s)
    ensures cp == start + Slashes(s) && StringAt(buf[..], cp, s[Slashes(s)..])
  {
    cp := start;
    CharAt(buf[..], start, s, 0);
    while buf[cp] == SLASH
      invariant start <= cp <= start + |s|
      invariant forall i :: 0 <= i < cp - start ==> s[i] == SLASH
      decreases start + |s| - cp
    {
      CharAt(buf[..], start, s, cp - start);
      cp := cp + 1;
    }
    CharAt(buf[..], start, s, cp - start);
    SlashesAre(s, cp - start);
    Shifted(buf[..], start, s, cp - start);
  }

  /** The end of the part that starts here, up to a slash or the end. */
  method SkipPart(buf: array<Char>, start: nat, ghost s: Name) returns (cp: nat)
    requires StringAt(buf[..], start, s)
    ensures cp == start + Part(s) && buf[start..cp] == s[..Part(s)] && StringAt(buf[..], cp, s[Part(s)..])
    ensures cp < buf.Length && (buf[cp] == NUL <==> Part(s) == |s|)
  {
    hide StringAt;
    cp := start;
    InBuffer(buf[..], start, s);
    while buf[cp] != NUL && buf[cp] != SLASH
      invariant start <= cp <= start + |s| && cp < buf.Length
      invariant forall i :: 0 <= i < cp - start ==> s[i] != SLASH
      decreases start + |s| - cp
    {
      CharAt(buf[..], start, s, cp - start);
      cp := cp + 1;
      CharAt(buf[..], start, s, cp - start);
    }
    CharAt(buf[..], start, s, cp - start);
    PartIs(s, cp - start);
    Shifted(buf[..], start, s, cp - start);
  }

  /** The same scan with the checks of a component. */
  method CheckComponent(buf: array<Char>, start: nat, ghost s: Name) returns (check: Check, cp: nat)
    requires StringAt(buf[..], start, s)
    ensures check == CheckPart(s[..Part(s)], 0)
    ensures check == Fine <==> Part(s) <= LONGEST && AllSevenBit(s[..Part(s)])
    ensures check == Bad(NameTooLong) <==> Part(s) > LONGEST && AllSevenBit(s[..LONGEST])
    ensures check == Fine ==>
      cp == start + Part(s) && buf[start..cp] == s[..Part(s)] && StringAt(buf[..], cp, s[Part(s)..])
  {
    ghost var part := s[..Part(s)];
    AcceptedParts(part);
    assert Part(s) > LONGEST ==> part[..LONGEST] == s[..LONGEST];
    var len: nat := 0;
    cp := start;
    CharAt(buf[..], start, s, 0);
    while buf[cp] != NUL && buf[cp] != SLASH
      invariant cp == start + len && len <= |part|
      invariant CheckPart(part, 0) == CheckPart(part, len)
      decreases |part| - len
    {
      CharAt(buf[..], start, s, len);
      if len > MAXNAMLEN {
        return Bad(NameTooLong), cp;
      }
      if buf[cp] >= 128 {
        return Bad(InvalidParameter), cp;
      }
      len := len + 1;
      cp := cp + 1;
    }
    CharAt(buf[..], start, s, len);
    PartIs(s, len);
    Shifted(buf[..], start, s, len);
    check := Fine;
  }

  // ---- open_file ----

  ghost predicate Clean(s: Name) {
    forall i :: 0 <= i < |s| ==> s[i] != NUL
  }

  /** open_file opens what the name means. */
  method OpenFile(devices: Devices, path: Name) returns (o: Outcome)
    requires |path| <= MAXPATHLEN && Clean(path)
    ensures o == Open(devices, path)
  {
    if path == [] {
      return Failed(NoEntry);
    }
    var buf := new Char[MAXPATHLEN + 1](_ => NUL);
    var i := 0;
    while i < |path|
      invariant 0 <= i <= |path| && buf[..i] == path[..i] && forall j :: i <= j < buf.Length ==> buf[j] == NUL
      modifies buf
    {
      buf[i] := path[i];
      i := i + 1;
    }
    assert StringAt(buf[..], 0, path);
    var named := HasPrefix(buf, 0, path, DEV);
    if !named {
      return Failed(NoEntry);
    }
    Shifted(buf[..], 0, path, 5);
    o := FromDevice(devices, buf, 5, path[5..], 0);
  }

  /** A name that starts with a device. */
  method FromDevice(devices: Devices, buf: array<Char>, start: nat, ghost name: Name, links: nat) returns (o: Outcome)
    requires buf.Length == MAXPATHLEN + 1 && StringAt(buf[..], start, name) && links <= MAXSYMLINKS
    modifies buf
    ensures o == OnDevice(devices, name, links)
    decreases MAXSYMLINKS - links, |name|, 1
  {
    var cp := SkipPart(buf, start, name);
    var device := buf[start..cp];
    if device !in devices {
      return Failed(NoDevice);
    }
    if buf[cp] == NUL {
      return RawDevice(device);
    }
    o := Resolve(devices, buf, cp, name[Part(name)..], device, ROOTINO, links);
  }

  /** What is left of a name behind its first component. */
  ghost function Behind(rest: Name): Name {
    var s := rest[Slashes(rest)..];
    s[Part(s)..]
  }

  datatype Lookup = Missing(error: Error) | Child(inode: nat)

  /** The next component is looked up in the current directory. */
  method LookUp(devices: Devices, buf: array<Char>, cp: nat, ghost rest: Name, device: Name, inode: nat,
    ghost links: nat)
    returns (found: Lookup, end: nat)
    requires StringAt(buf[..], cp, rest) && rest != [] && links <= MAXSYMLINKS
    ensures found.Missing? ==> Walk(devices, device, inode, rest, links) == Failed(found.error)
    ensures found.Child? ==> StringAt(buf[..], end, Behind(rest)) && |Behind(rest)| < |rest|
    ensures found.Child? ==> Walk(devices, device, inode, rest, links) == Step(devices, device, inode, found.inode,
      Behind(rest), links)
  {
    var node := NodeAt(devices, device, inode);
    if !node.Directory? {
      return Missing(NotDirectory), cp;
    }
    Progress(rest);
    var component := SkipSlashes(buf, cp, rest);
    ghost var s := rest[Slashes(rest)..];
    var check;
    check, end := CheckComponent(buf, component, s);
    if check != Fine {
      return Missing(check.error), end;
    }
    var part := buf[component..end];
    found := if part in node.entries then Child(node.entries[part]) else Missing(NoEntry);
  }

  /** A link is put in front of the rest of the name, if there is room and not
      too many came before. */
  method TakeLink(buf: array<Char>, cp: nat, ghost rest: Name, text: Name, links: nat) returns (check: Check)
    requires buf.Length == MAXPATHLEN + 1 && StringAt(buf[..], cp, rest) && links <= MAXSYMLINKS
    modifies buf
    ensures check == if |text| + |rest| + 1 >= MAXPATHLEN - 1 then Bad(NameTooLong)
      else if links + 1 > MAXSYMLINKS then Bad(SymlinkLoop) else Fine
    ensures check == Fine ==> StringAt(buf[..], 0, CString(text + rest))
  {
    var len := StringLength(buf, cp, rest);
    if |text| + (len + 1) >= MAXPATHLEN - 1 {
      return Bad(NameTooLong);
    }
    if links + 1 > MAXSYMLINKS {
      return Bad(SymlinkLoop);
    }
    Splice(buf, cp, text, rest);
    check := Fine;
  }

  /** The loop over the components. A link makes the name start anew, and on
      another device the loop does too. */
  method Resolve(devices: Devices, buf: array<Char>, start: nat, ghost name: Name, device: Name, root: nat,
    links: nat) returns (o: Outcome)
    requires buf.Length == MAXPATHLEN + 1 && StringAt(buf[..], start, name) && links <= MAXSYMLINKS
    modifies buf
    ensures o == Walk(devices, device, root, name, links)
    decreases MAXSYMLINKS - links, |name|, 0
  {
    hide StringAt, Behind, CString, Slashes, Part, CheckPart, OnDevice;
    var cp: nat, inode: nat, nlinks: nat := start, root, links;
    ghost var rest := name;
    InBuffer(buf[..], cp, rest);
    while buf[cp] != NUL
      invariant StringAt(buf[..], cp, rest) && cp < buf.Length && (buf[cp] == NUL <==> rest == []) &&
        links <= nlinks <= MAXSYMLINKS
      invariant Walk(devices, device, inode, rest, nlinks) == Walk(devices, device, root, name, links)
      modifies buf
      decreases MAXSYMLINKS - nlinks, |rest|
    {
      var found, end := LookUp(devices, buf, cp, rest, device, inode, nlinks);
      if found.Missing? {
        return Failed(found.error);
      }
      hide Walk;
      cp, rest := end, Behind(rest);
      var child := NodeAt(devices, device, found.inode);
      if child.Link? {
        var check := TakeLink(buf, cp, rest, child.text, nlinks);
        if check != Fine {
          return Failed(check.error);
        }
        nlinks := nlinks + 1;
        cp, rest := 0, CString(child.text + rest);
        InBuffer(buf[..], cp, rest);
        if buf[cp] == SLASH {
          var elsewhere := HasPrefix(buf, cp, rest, DEV);
          if elsewhere {
            Shifted(buf[..], cp, rest, 5);
            o := FromDevice(devices, buf, 5, rest[5..], nlinks);
            return;
          }
          inode := ROOTINO;
        }
      } else {
        inode := found.inode;
      }
      InBuffer(buf[..], cp, rest);
    }
    o := Opened(device, inode);
  }

  lemma InBuffer(buf: seq<Char>, cp: nat, s: Name)
    requires StringAt(buf, cp, s)
    ensures cp < |buf| && buf[cp] == if s == [] then NUL else s[0]
    ensures buf[cp] == NUL <==> s == []
  {
    CharAt(buf, cp, s, 0);
  }
}
