/** What a path name means to open_file (bootstrap/file_io.c), on names that are
    plain sequences of characters. */
module Paths {

  type Char = x: int | 0 <= x < 256

  const NUL: Char := 0
  const SLASH: Char := 47
  const MAXPATHLEN: nat := 1024
  const MAXSYMLINKS: nat := 8
  const MAXNAMLEN: nat := 255
  const ROOTINO: nat := 2

  type Name = seq<Char>

  /** "/dev/" */
  const DEV: Name := [47, 100, 101, 118, 47]

  datatype Node = Directory(entries: map<Name, nat>) | Link(text: Name) | Plain

  type FileSystem = map<nat, Node>
  type Devices = map<Name, FileSystem>

  datatype Error = NoEntry | NotDirectory | NameTooLong | InvalidParameter | SymlinkLoop | NoDevice

  datatype Outcome = Opened(device: Name, inode: nat) | RawDevice(name: Name) | Failed(error: Error)

  function NodeAt(devices: Devices, device: Name, inode: nat): Node {
    if device in devices && inode in devices[device] then devices[device][inode] else Plain
  }

  // ---- names ----

  function Slashes(s: Name): (n: nat)
    ensures n <= |s| && (forall i :: 0 <= i < n ==> s[i] == SLASH) && (n < |s| ==> s[n] != SLASH)
  {
    if s == [] || s[0] != SLASH then 0 else 1 + Slashes(s[1..])
  }

  /** Length of the part before the next slash. */
  function Part(s: Name): (n: nat)
    ensures n <= |s| && (forall i :: 0 <= i < n ==> s[i] != SLASH) && (n < |s| ==> s[n] == SLASH)
  {
    if s == [] || s[0] == SLASH then 0 else 1 + Part(s[1..])
  }

  /** A C string ends at its first NUL. */
  function CString(s: Name): (r: Name)
    ensures r <= s && (forall i :: 0 <= i < |r| ==> r[i] != NUL) && (|r| < |s| ==> s[|r|] == NUL)
  {
    if s == [] || s[0] == NUL then [] else [s[0]] + CString(s[1..])
  }

  predicate IsPrefix(p: Name, s: Name) { p <= s }

  datatype Check = Fine | Bad(error: Error)

  /** The characters of a component are looked at one by one; as the test stands
      a component may be one longer than MAXNAMLEN. */
  function CheckPart(part: Name, i: nat): Check
    requires i <= |part|
    decreases |part| - i
  {
    if i == |part| then Fine
    else if i > MAXNAMLEN then Bad(NameTooLong)
    else if part[i] >= 128 then Bad(InvalidParameter)
    else CheckPart(part, i + 1)
  }

  predicate AllSevenBit(part: Name) {
    forall k :: 0 <= k < |part| ==> part[k] < 128
  }

  /** The longest component that is accepted: one more than MAXNAMLEN. */
  const LONGEST: nat := MAXNAMLEN + 1

  /** A component is accepted exactly when it has at most MAXNAMLEN + 1 characters,
      all of seven bits. It is too long exactly when it has more and the first
      MAXNAMLEN + 1 of them are of seven bits; else a character is invalid. */
  lemma AcceptedParts(part: Name)
    ensures CheckPart(part, 0) == Fine <==> |part| <= LONGEST && AllSevenBit(part)
    ensures CheckPart(part, 0) == Bad(NameTooLong) <==> LONGEST < |part| && AllSevenBit(part[..LONGEST])
    ensures CheckPart(part, 0) == Bad(InvalidParameter) <==>
      !AllSevenBit(if |part| <= LONGEST then part else part[..LONGEST])
  {
    CheckFrom(part, 0);
  }

  lemma {:induction false} CheckFrom(part: Name, i: nat)
    requires i <= |part| && i <= LONGEST && forall k :: 0 <= k < i ==> part[k] < 128
    ensures CheckPart(part, i) == Fine <==> |part| <= LONGEST && AllSevenBit(part)
    ensures CheckPart(part, i) == Bad(NameTooLong) <==> LONGEST < |part| && AllSevenBit(part[..LONGEST])
    ensures CheckPart(part, i) in {Fine, Bad(NameTooLong), Bad(InvalidParameter)}
    decreases |part| - i
  {
    if i < |part| && i <= MAXNAMLEN && part[i] < 128 {
      CheckFrom(part, i + 1);
    }
  }

  /** The promise of dir.h fails for just one length. */
  lemma OneTooLongIsAccepted(part: Name)
    requires AllSevenBit(part)
    ensures (CheckPart(part, 0) == Fine <==> |part| <= MAXNAMLEN) <==> |part| != MAXNAMLEN + 1
  {
    AcceptedParts(part);
  }

  // ---- resolution ----

  /** From a directory on, `rest` still to go and so many links behind. */
  function Walk(devices: Devices, device: Name, inode: nat, rest: Name, links: nat): Outcome
    requires links <= MAXSYMLINKS
    decreases MAXSYMLINKS - links, |rest|, 0
  {
    if rest == [] then Opened(device, inode)
    else
      match NodeAt(devices, device, inode)
      case Link(_) => Failed(NotDirectory)
      case Plain => Failed(NotDirectory)
      case Directory(entries) =>
        var s := rest[Slashes(rest)..];
        var part := s[..Part(s)];
        match CheckPart(part, 0)
        case Bad(e) => Failed(e)
        case Fine =>
          if part !in entries then Failed(NoEntry)
          else
            Progress(rest);
            Step(devices, device, inode, entries[part], s[|part|..], links)
  }

  /** The component is found; a link is replaced by its text. */
  function Step(devices: Devices, device: Name, parent: nat, inode: nat, rest: Name, links: nat): Outcome
    requires links <= MAXSYMLINKS
    decreases MAXSYMLINKS - links, |rest|, 1
  {
    match NodeAt(devices, device, inode)
    case Link(text) =>
      if |text| + |rest| + 1 >= MAXPATHLEN - 1 then Failed(NameTooLong)
      else if links + 1 > MAXSYMLINKS then Failed(SymlinkLoop)
      else Restart(devices, device, parent, CString(text + rest), links + 1)
    case _ => Walk(devices, device, inode, rest, links)
  }

  /** A name taken from a link starts at the directory it was found in, at the
      root, or on another device. */
  function Restart(devices: Devices, device: Name, parent: nat, name: Name, links: nat): Outcome
    requires links <= MAXSYMLINKS
    decreases MAXSYMLINKS - links, |name|, 2
  {
    if name == [] || name[0] != SLASH then Walk(devices, device, parent, name, links)
    else if !IsPrefix(DEV, name) then Walk(devices, device, ROOTINO, name, links)
    else OnDevice(devices, name[5..], links)
  }

  /** The name starts with a device. */
  function OnDevice(devices: Devices, name: Name, links: nat): Outcome
    requires links <= MAXSYMLINKS
    decreases MAXSYMLINKS - links, |name|, 1
  {
    var device, rest := name[..Part(name)], name[Part(name)..];
    if device !in devices then Failed(NoDevice)
    else if rest == [] then RawDevice(device)
    else Walk(devices, device, ROOTINO, rest, links)
  }

  function Open(devices: Devices, path: Name): Outcome {
    if !IsPrefix(DEV, path) then Failed(NoEntry) else OnDevice(devices, path[5..], 0)
  }

  /** Without a link, every component takes characters off the name. */
  lemma Progress(rest: Name)
    requires rest != []
    ensures var s := rest[Slashes(rest)..]; |s[Part(s)..]| < |rest|
  {}

  // ---- what resolution gives ----

  predicate IsLink(devices: Devices, device: Name, inode: nat) {
    NodeAt(devices, device, inode).Link?
  }

  ghost predicate RootsAreNoLinks(devices: Devices) {
    forall d :: d in devices ==> !IsLink(devices, d, ROOTINO)
  }

  ghost predicate OpensNoLink(devices: Devices, o: Outcome) {
    o.Opened? ==> !IsLink(devices, o.device, o.inode)
  }

  /** What is opened is never itself a link: links are followed to the end. */
  lemma LinksAreFollowed(devices: Devices, path: Name)
    requires RootsAreNoLinks(devices)
    ensures OpensNoLink(devices, Open(devices, path))
  {
    if IsPrefix(DEV, path) {
      DeviceFollows(devices, path[5..], 0);
    }
  }

  lemma {:induction false} DeviceFollows(devices: Devices, name: Name, links: nat)
    requires RootsAreNoLinks(devices) && links <= MAXSYMLINKS
    ensures OpensNoLink(devices, OnDevice(devices, name, links))
    decreases MAXSYMLINKS - links, |name|, 1
  {
    var device, rest := name[..Part(name)], name[Part(name)..];
    if device in devices && rest != [] {
      WalkFollows(devices, device, ROOTINO, rest, links);
    }
  }

  lemma {:induction false} WalkFollows(devices: Devices, device: Name, inode: nat, rest: Name, links: nat)
    requires RootsAreNoLinks(devices) && links <= MAXSYMLINKS && !IsLink(devices, device, inode)
    ensures OpensNoLink(devices, Walk(devices, device, inode, rest, links))
    decreases MAXSYMLINKS - links, |rest|, 0
  {
    if rest != [] && NodeAt(devices, device, inode).Directory? {
      var entries := NodeAt(devices, device, inode).entries;
      var s := rest[Slashes(rest)..];
      var part := s[..Part(s)];
      if CheckPart(part, 0) == Fine && part in entries {
        Progress(rest);
        StepFollows(devices, device, inode, entries[part], s[|part|..], links);
      }
    }
  }

  lemma {:induction false} StepFollows(devices: Devices, device: Name, parent: nat, inode: nat, rest: Name, links: nat)
    requires RootsAreNoLinks(devices) && links <= MAXSYMLINKS && !IsLink(devices, device, parent)
    ensures OpensNoLink(devices, Step(devices, device, parent, inode, rest, links))
    decreases MAXSYMLINKS - links, |rest|, 1
  {
    if IsLink(devices, device, inode) {
      var text := NodeAt(devices, device, inode).text;
      if |text| + |rest| + 1 < MAXPATHLEN - 1 && links < MAXSYMLINKS {
        RestartFollows(devices, device, parent, CString(text + rest), links + 1);
      }
    } else {
      WalkFollows(devices, device, inode, rest, links);
    }
  }

  lemma {:induction false} RestartFollows(devices: Devices, device: Name, parent: nat, name: Name, links: nat)
    requires RootsAreNoLinks(devices) && links <= MAXSYMLINKS && !IsLink(devices, device, parent)
    ensures OpensNoLink(devices, Restart(devices, device, parent, name, links))
    decreases MAXSYMLINKS - links, |name|, 2
  {
    if name == [] || name[0] != SLASH {
      WalkFollows(devices, device, parent, name, links);
    } else if !IsPrefix(DEV, name) {
      WalkFollows(devices, device, ROOTINO, name, links);
    } else {
      DeviceFollows(devices, name[5..], links);
    }
  }
}
