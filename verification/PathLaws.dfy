/** What names mean, said of whole names: a name without links leads down the tree,
    a link is worth its text, and every name is settled by one of these laws or by
    the first component that fails. */
module PathLaws {
  import opened Paths

  // ---- names, component by component ----

  /** One or more slashes and a component. */
  datatype Hop = Hop(slashes: nat, part: Name)

  predicate NoSlash(s: Name) {
    forall i :: 0 <= i < |s| ==> s[i] != SLASH
  }

  /** Nothing, or something that begins with a slash. */
  predicate Apart(s: Name) {
    s == [] || s[0] == SLASH
  }

  predicate GoodHop(h: Hop) {
    0 < h.slashes && h.part != [] && NoSlash(h.part) && |h.part| <= LONGEST && AllSevenBit(h.part)
  }

  predicate Good(route: seq<Hop>) {
    forall i :: 0 <= i < |route| ==> GoodHop(route[i])
  }

  function Bar(n: nat): (s: Name)
    ensures |s| == n && forall i :: 0 <= i < n ==> s[i] == SLASH
  {
    seq(n, _ => SLASH)
  }

  function Written(h: Hop): Name {
    Bar(h.slashes) + h.part
  }

  function Spelled(route: seq<Hop>): Name {
    if route == [] then [] else Written(route[0]) + Spelled(route[1..])
  }

  /** The components lead from one inode to another, and none of them is a link. */
  ghost predicate Leads(devices: Devices, device: Name, from: nat, route: seq<Hop>, to: nat)
    decreases |route|
  {
    if route == [] then from == to
    else
      var node := NodeAt(devices, device, from);
      && node.Directory? && route[0].part in node.entries
      && !IsLink(devices, device, node.entries[route[0].part])
      && Leads(devices, device, node.entries[route[0].part], route[1..], to)
  }

  /** open_file, with only so many links allowed. */
  function OpenAllowing(devices: Devices, path: Name, n: nat): Outcome
    requires n <= MAXSYMLINKS
  {
    if !IsPrefix(DEV, path) then Failed(NoEntry) else OnDevice(devices, path[5..], MAXSYMLINKS - n)
  }

  /** A name on a device. */
  function On(device: Name, rest: Name): Name {
    DEV + (device + rest)
  }

  lemma AllowingAll(devices: Devices, path: Name)
    ensures OpenAllowing(devices, path, MAXSYMLINKS) == Open(devices, path)
  {}

  // ---- taking a name apart ----

  lemma {:induction false} SlashesOf(k: nat, s: Name)
    requires s == [] || s[0] != SLASH
    ensures Slashes(Bar(k) + s) == k
    decreases k
  {
    var t := Bar(k) + s;
    if k > 0 {
      assert t[0] == SLASH && t[1..] == Bar(k - 1) + s;
      SlashesOf(k - 1, s);
    } else {
      assert t == s;
    }
  }

  lemma {:induction false} PartOf(c: Name, more: Name)
    requires NoSlash(c) && Apart(more)
    ensures Part(c + more) == |c|
  {
    if c == [] {
      assert c + more == more;
    } else {
      assert (c + more)[0] == c[0] && (c + more)[1..] == c[1..] + more;
      PartOf(c[1..], more);
    }
  }

  /** The next component of a name, and what follows it. */
  lemma Next(k: nat, c: Name, more: Name)
    requires NoSlash(c) && Apart(more) && (c == [] ==> more == [])
    ensures var rest := Bar(k) + c + more; var s := rest[Slashes(rest)..];
      s == c + more && s[..Part(s)] == c && s[|c|..] == more
  {
    var rest := Bar(k) + c + more;
    assert rest == Bar(k) + (c + more);
    SlashesOf(k, c + more);
    assert rest[k..] == c + more;
    PartOf(c, more);
  }

  lemma SpelledApart(route: seq<Hop>, tail: Name)
    requires Good(route) && Apart(tail)
    ensures Apart(Spelled(route) + tail)
  {
    if route != [] {
      assert GoodHop(route[0]);
      assert (Spelled(route) + tail)[0] == Bar(route[0].slashes)[0];
    } else {
      assert Spelled(route) + tail == tail;
    }
  }

  // ---- walking ----

  /** One component that is no link. */
  lemma WalkHop(devices: Devices, device: Name, from: nat, h: Hop, more: Name, links: nat)
    requires links <= MAXSYMLINKS && GoodHop(h) && Apart(more)
    requires var node := NodeAt(devices, device, from); node.Directory? && h.part in node.entries
    ensures Walk(devices, device, from, Written(h) + more, links) ==
      Step(devices, device, from, NodeAt(devices, device, from).entries[h.part], more, links)
  {
    Next(h.slashes, h.part, more);
    AcceptedParts(h.part);
    hide Step, Slashes, Part, CheckPart;
  }

  lemma {:induction false} Travel(devices: Devices, device: Name, from: nat, route: seq<Hop>, to: nat, tail: Name,
    links: nat)
    requires links <= MAXSYMLINKS && Good(route) && Apart(tail) && Leads(devices, device, from, route, to)
    ensures Walk(devices, device, from, Spelled(route) + tail, links) == Walk(devices, device, to, tail, links)
    decreases |route|
  {
    if route == [] {
      assert Spelled(route) + tail == tail;
    } else {
      var next := NodeAt(devices, device, from).entries[route[0].part];
      var more := Spelled(route[1..]) + tail;
      assert GoodHop(route[0]);
      SpelledApart(route[1..], tail);
      assert Spelled(route) + tail == Written(route[0]) + more;
      WalkHop(devices, device, from, route[0], more, links);
      Travel(devices, device, next, route[1..], to, tail, links);
    }
  }

  lemma OnDeviceWalks(devices: Devices, device: Name, rest: Name, n: nat)
    requires n <= MAXSYMLINKS && device in devices && NoSlash(device) && rest != [] && Apart(rest)
    ensures OpenAllowing(devices, On(device, rest), n) == Walk(devices, device, ROOTINO, rest, MAXSYMLINKS - n)
  {
    var path := On(device, rest);
    assert path[..5] == DEV && path[5..] == device + rest;
    PartOf(device, rest);
    assert (device + rest)[..|device|] == device && (device + rest)[|device|..] == rest;
  }

  /** An opened name leads on to whatever follows it. */
  lemma OnRoute(devices: Devices, device: Name, route: seq<Hop>, to: nat, tail: Name, n: nat)
    requires n <= MAXSYMLINKS && device in devices && NoSlash(device)
    requires Good(route) && Apart(tail) && Leads(devices, device, ROOTINO, route, to) && (route != [] || tail != [])
    ensures OpenAllowing(devices, On(device, Spelled(route) + tail), n)
         == Walk(devices, device, to, tail, MAXSYMLINKS - n)
  {
    SpelledApart(route, tail);
    if route != [] {
      assert GoodHop(route[0]);
      assert |Spelled(route)| >= |Written(route[0])| > 0;
    }
    OnDeviceWalks(devices, device, Spelled(route) + tail, n);
    Travel(devices, device, ROOTINO, route, to, tail, MAXSYMLINKS - n);
  }

  // ---- the laws ----

  /** A name that meets no link opens what it leads to. */
  lemma PlainNamesLeadDown(devices: Devices, device: Name, route: seq<Hop>, to: nat)
    requires device in devices && NoSlash(device) && route != [] && Good(route)
    requires Leads(devices, device, ROOTINO, route, to)
    ensures Open(devices, On(device, Spelled(route))) == Opened(device, to)
  {
    AllowingAll(devices, On(device, Spelled(route)));
    assert Spelled(route) + [] == Spelled(route);
    OnRoute(devices, device, route, to, [], MAXSYMLINKS);
  }

  /** The name that a link, found in a directory, and what follows it stand for. */
  function Substituted(device: Name, route: seq<Hop>, name: Name): Name {
    if IsPrefix(DEV, name) then name
    else if name != [] && name[0] == SLASH then On(device, name)
    else On(device, Spelled(route) + ([SLASH] + name))
  }

  lemma LeadingSlash(devices: Devices, device: Name, inode: nat, name: Name, links: nat)
    requires links <= MAXSYMLINKS && name != []
    ensures Walk(devices, device, inode, [SLASH] + name, links) == Walk(devices, device, inode, name, links)
  {
    var rest := [SLASH] + name;
    assert rest[0] == SLASH && rest[1..] == name && Slashes(rest) == 1 + Slashes(name);
    assert rest[Slashes(rest)..] == name[Slashes(name)..];
    hide Step, Part, CheckPart, Slashes;
  }

  /** A directory holds a link of that name, with that text. */
  ghost predicate HoldsLink(devices: Devices, device: Name, dir: nat, part: Name, text: Name) {
    var node := NodeAt(devices, device, dir);
    node.Directory? && part in node.entries && NodeAt(devices, device, node.entries[part]) == Link(text)
  }

  predicate TooLong(text: Name, rest: Name) {
    |text| + |rest| + 1 >= MAXPATHLEN - 1
  }

  /** A name that leads to a directory, a link in it, and what follows. */
  function Through(device: Name, route: seq<Hop>, link: Hop, rest: Name): Name {
    On(device, Spelled(route) + (Written(link) + rest))
  }

  lemma Restarted(devices: Devices, device: Name, route: seq<Hop>, dir: nat, name: Name, n: nat)
    requires n < MAXSYMLINKS && device in devices && NoSlash(device) && Good(route)
    requires Leads(devices, device, ROOTINO, route, dir)
    ensures name == [] ==> Restart(devices, device, dir, name, MAXSYMLINKS - n) == Opened(device, dir)
    ensures name != [] ==>
      Restart(devices, device, dir, name, MAXSYMLINKS - n) == OpenAllowing(devices, Substituted(device, route, name), n)
  {
    if IsPrefix(DEV, name) {
    } else if name != [] && name[0] == SLASH {
      OnDeviceWalks(devices, device, name, n);
    } else if name != [] {
      OnRoute(devices, device, route, dir, [SLASH] + name, n);
      LeadingSlash(devices, device, dir, name, MAXSYMLINKS - n);
    }
  }

  lemma LinkIsReached(devices: Devices, device: Name, route: seq<Hop>, dir: nat, link: Hop, text: Name, rest: Name,
    n: nat)
    requires n <= MAXSYMLINKS && device in devices && NoSlash(device)
    requires Good(route) && GoodHop(link) && Apart(rest) && Leads(devices, device, ROOTINO, route, dir)
    requires HoldsLink(devices, device, dir, link.part, text)
    ensures OpenAllowing(devices, Through(device, route, link, rest), n) ==
      Step(devices, device, dir, NodeAt(devices, device, dir).entries[link.part], rest, MAXSYMLINKS - n)
  {
    hide Walk, Step, OpenAllowing, Leads, On, Spelled;
    assert (Written(link) + rest)[0] == SLASH;
    OnRoute(devices, device, route, dir, Written(link) + rest, n);
    WalkHop(devices, device, dir, link, rest, MAXSYMLINKS - n);
  }

  /** A link and what follows it are worth the name they stand for, with one link
      less; only a text and a rest that do not fit the buffer, or too many links,
      make a difference. An empty name is the directory itself. */
  lemma LinkIsItsText(devices: Devices, device: Name, route: seq<Hop>, dir: nat, link: Hop, text: Name, rest: Name,
    n: nat)
    requires n <= MAXSYMLINKS && device in devices && NoSlash(device)
    requires Good(route) && GoodHop(link) && Apart(rest) && Leads(devices, device, ROOTINO, route, dir)
    requires HoldsLink(devices, device, dir, link.part, text)
    ensures TooLong(text, rest) ==>
      OpenAllowing(devices, Through(device, route, link, rest), n) == Failed(NameTooLong)
    ensures !TooLong(text, rest) && n == 0 ==>
      OpenAllowing(devices, Through(device, route, link, rest), n) == Failed(SymlinkLoop)
    ensures !TooLong(text, rest) && n > 0 && CString(text + rest) == [] ==>
      OpenAllowing(devices, Through(device, route, link, rest), n) == Opened(device, dir)
    ensures !TooLong(text, rest) && n > 0 && CString(text + rest) != [] ==>
      OpenAllowing(devices, Through(device, route, link, rest), n) ==
        OpenAllowing(devices, Substituted(device, route, CString(text + rest)), n - 1)
  {
    hide Walk, Restart, Substituted, OpenAllowing, Leads, Through;
    LinkIsReached(devices, device, route, dir, link, text, rest, n);
    if n > 0 {
      Restarted(devices, device, route, dir, CString(text + rest), n - 1);
    }
  }

  // ---- how many links are allowed ----

  /** More links allowed make a difference only to a name that follows too many. */
  predicate SameUnlessLooping(few: Outcome, many: Outcome) {
    few == Failed(SymlinkLoop) || few == many
  }

  lemma MoreLinksAllowed(devices: Devices, path: Name, n: nat, m: nat)
    requires n <= m <= MAXSYMLINKS
    ensures SameUnlessLooping(OpenAllowing(devices, path, n), OpenAllowing(devices, path, m))
  {
    if IsPrefix(DEV, path) {
      DeviceAllowed(devices, path[5..], MAXSYMLINKS - n, MAXSYMLINKS - m);
    }
  }

  lemma {:induction false} DeviceAllowed(devices: Devices, name: Name, links: nat, fewer: nat)
    requires fewer <= links <= MAXSYMLINKS
    ensures SameUnlessLooping(OnDevice(devices, name, links), OnDevice(devices, name, fewer))
    decreases MAXSYMLINKS - links, |name|, 1
  {
    var device, rest := name[..Part(name)], name[Part(name)..];
    if device in devices && rest != [] {
      WalkAllowed(devices, device, ROOTINO, rest, links, fewer);
    }
  }

  lemma {:induction false} WalkAllowed(devices: Devices, device: Name, inode: nat, rest: Name, links: nat, fewer: nat)
    requires fewer <= links <= MAXSYMLINKS
    ensures SameUnlessLooping(Walk(devices, device, inode, rest, links), Walk(devices, device, inode, rest, fewer))
    decreases MAXSYMLINKS - links, |rest|, 0
  {
    if rest != [] && NodeAt(devices, device, inode).Directory? {
      var entries := NodeAt(devices, device, inode).entries;
      var s := rest[Slashes(rest)..];
      var part := s[..Part(s)];
      if CheckPart(part, 0) == Fine && part in entries {
        Progress(rest);
        StepAllowed(devices, device, inode, entries[part], s[|part|..], links, fewer);
      }
    }
  }

  lemma {:induction false} StepAllowed(devices: Devices, device: Name, parent: nat, inode: nat, rest: Name,
    links: nat, fewer: nat)
    requires fewer <= links <= MAXSYMLINKS
    ensures SameUnlessLooping(Step(devices, device, parent, inode, rest, links),
      Step(devices, device, parent, inode, rest, fewer))
    decreases MAXSYMLINKS - links, |rest|, 1
  {
    if IsLink(devices, device, inode) {
      var text := NodeAt(devices, device, inode).text;
      if |text| + |rest| + 1 < MAXPATHLEN - 1 && links < MAXSYMLINKS {
        RestartAllowed(devices, device, parent, CString(text + rest), links + 1, fewer + 1);
      }
    } else {
      WalkAllowed(devices, device, inode, rest, links, fewer);
    }
  }

  lemma {:induction false} RestartAllowed(devices: Devices, device: Name, parent: nat, name: Name, links: nat,
    fewer: nat)
    requires fewer <= links <= MAXSYMLINKS
    ensures SameUnlessLooping(Restart(devices, device, parent, name, links),
      Restart(devices, device, parent, name, fewer))
    decreases MAXSYMLINKS - links, |name|, 2
  {
    if name == [] || name[0] != SLASH {
      WalkAllowed(devices, device, parent, name, links, fewer);
    } else if !IsPrefix(DEV, name) {
      WalkAllowed(devices, device, ROOTINO, name, links, fewer);
    } else {
      DeviceAllowed(devices, name[5..], links, fewer);
    }
  }

  /** The name opens or fails otherwise, but only with all the links allowed. */
  predicate NeedsEveryLink(devices: Devices, path: Name) {
    && OpenAllowing(devices, path, MAXSYMLINKS - 1) == Failed(SymlinkLoop)
    && OpenAllowing(devices, path, MAXSYMLINKS) != Failed(SymlinkLoop)
  }

  /** A link may be replaced by its text in a name exactly when the two fit the
      buffer and the new name does not need every link that is allowed. */
  lemma TextMayReplaceLink(devices: Devices, device: Name, route: seq<Hop>, dir: nat, link: Hop, text: Name,
    rest: Name)
    requires device in devices && NoSlash(device)
    requires Good(route) && GoodHop(link) && Apart(rest) && Leads(devices, device, ROOTINO, route, dir)
    requires HoldsLink(devices, device, dir, link.part, text) && CString(text + rest) != []
    ensures var name, other := Through(device, route, link, rest), Substituted(device, route, CString(text + rest));
      Open(devices, name) == Open(devices, other) <==>
        if TooLong(text, rest) then Open(devices, other) == Failed(NameTooLong)
        else !NeedsEveryLink(devices, other)
  {
    hide Open, OpenAllowing, Leads, Through, Substituted, HoldsLink;
    var name, other := Through(device, route, link, rest), Substituted(device, route, CString(text + rest));
    LinkIsItsText(devices, device, route, dir, link, text, rest, MAXSYMLINKS);
    MoreLinksAllowed(devices, other, MAXSYMLINKS - 1, MAXSYMLINKS);
    AllowingAll(devices, name);
    AllowingAll(devices, other);
  }

  // ---- what fails ----

  /** A name has to start with a device that exists; the device alone is opened raw. */
  lemma DeviceNames(devices: Devices, path: Name, device: Name, rest: Name)
    requires NoSlash(device) && Apart(rest)
    ensures !(DEV <= path) ==> Open(devices, path) == Failed(NoEntry)
    ensures device !in devices ==> Open(devices, On(device, rest)) == Failed(NoDevice)
    ensures device in devices && rest == [] ==> Open(devices, On(device, rest)) == RawDevice(device)
  {
    hide Walk;
    var name := On(device, rest);
    assert name[..5] == DEV && name[5..] == device + rest;
    PartOf(device, rest);
    assert (device + rest)[..|device|] == device && (device + rest)[|device|..] == rest;
  }

  /** Behind something that is no directory, nothing is found. */
  lemma OnlyDirectoriesLeadOn(devices: Devices, device: Name, route: seq<Hop>, to: nat, tail: Name, n: nat)
    requires n <= MAXSYMLINKS && device in devices && NoSlash(device)
    requires Good(route) && Apart(tail) && tail != [] && Leads(devices, device, ROOTINO, route, to)
    ensures !NodeAt(devices, device, to).Directory? ==>
      OpenAllowing(devices, On(device, Spelled(route) + tail), n) == Failed(NotDirectory)
  {
    hide OpenAllowing, Leads, On, Spelled;
    OnRoute(devices, device, route, to, tail, n);
  }

  /** A component is refused for its characters, or not found. */
  lemma PartsThatFail(devices: Devices, device: Name, route: seq<Hop>, dir: nat, h: Hop, rest: Name, n: nat)
    requires n <= MAXSYMLINKS && device in devices && NoSlash(device) && Good(route)
    requires Leads(devices, device, ROOTINO, route, dir) && NodeAt(devices, device, dir).Directory?
    requires 0 < h.slashes && NoSlash(h.part) && Apart(rest) && (h.part == [] ==> rest == [])
    ensures LONGEST < |h.part| && AllSevenBit(h.part[..LONGEST]) ==>
      OpenAllowing(devices, Through(device, route, h, rest), n) == Failed(NameTooLong)
    ensures !AllSevenBit(if |h.part| <= LONGEST then h.part else h.part[..LONGEST]) ==>
      OpenAllowing(devices, Through(device, route, h, rest), n) == Failed(InvalidParameter)
    ensures |h.part| <= LONGEST && AllSevenBit(h.part) && h.part !in NodeAt(devices, device, dir).entries ==>
      OpenAllowing(devices, Through(device, route, h, rest), n) == Failed(NoEntry)
  {
    hide OpenAllowing, Leads, On, Spelled, Step, Slashes, Part, CheckPart;
    assert (Written(h) + rest)[0] == SLASH;
    OnRoute(devices, device, route, dir, Written(h) + rest, n);
    Next(h.slashes, h.part, rest);
    AcceptedParts(h.part);
  }

  // ---- the laws settle every name ----

  ghost predicate NoEmptyNames(devices: Devices) {
    forall d, i: nat {:trigger NodeAt(devices, d, i)} ::
      NodeAt(devices, d, i).Directory? ==> [] !in NodeAt(devices, d, i).entries
  }

  /** No component leads on from here: the name ends, or the next component is
      refused, not found, or a link. */
  ghost predicate Halts(devices: Devices, device: Name, at: nat, tail: Name, h: Hop, rest: Name) {
    var node := NodeAt(devices, device, at);
    || tail == []
    || (Apart(tail) && !node.Directory?)
    || (&& tail == Written(h) + rest && 0 < h.slashes && NoSlash(h.part) && Apart(rest)
        && (h.part == [] ==> rest == []) && node.Directory?
        && (|| LONGEST < |h.part| || !AllSevenBit(h.part) || h.part !in node.entries
            || IsLink(devices, device, node.entries[h.part])))
  }

  lemma TakeApart(rest: Name) returns (h: Hop, more: Name)
    requires rest != [] && rest[0] == SLASH
    ensures rest == Written(h) + more && 0 < h.slashes && NoSlash(h.part) && Apart(more) && |more| < |rest|
    ensures h.part == [] ==> more == []
  {
    var k := Slashes(rest);
    var s := rest[k..];
    var n := Part(s);
    h, more := Hop(k, s[..n]), s[n..];
    assert rest[..k] == Bar(k);
  }

  /** Every name on a device is a way down without links, and then its end, a
      component that fails, or a link: one of the laws above says what opening it
      gives. */
  lemma {:induction false} EveryNameIsSettled(devices: Devices, device: Name, from: nat, name: Name)
    returns (route: seq<Hop>, to: nat, tail: Name, h: Hop, rest: Name)
    requires NoEmptyNames(devices) && Apart(name)
    ensures Good(route) && Leads(devices, device, from, route, to) && name == Spelled(route) + tail
    ensures Halts(devices, device, to, tail, h, rest)
    decreases |name|
  {
    route, to, tail, h, rest := [], from, name, Hop(0, []), [];
    var node := NodeAt(devices, device, from);
    if name != [] && node.Directory? {
      h, rest := TakeApart(name);
      if |h.part| <= LONGEST && AllSevenBit(h.part) && h.part in node.entries {
        var next, first := node.entries[h.part], h;
        if !IsLink(devices, device, next) {
          var behind := rest;
          var onward: seq<Hop>;
          onward, to, tail, h, rest := EveryNameIsSettled(devices, device, next, behind);
          route := [first] + onward;
          assert route[1..] == onward;
          assert name == Spelled(route) + tail;
        }
      }
    }
  }
}
