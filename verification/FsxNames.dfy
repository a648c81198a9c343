/** Path names of the batch engine: containment of paths and the unique names of staging files. */
module FsxNames {
  import opened Text

  type Path = string

  // ----- Containment -----

  predicate IsWithin(child: Path, parent: Path) {
    |parent| < |child| && StartsWith(child, parent) && (parent == "/" || child[|parent|] == '/')
  }

  predicate AtOrWithin(child: Path, parent: Path) {
    child == parent || IsWithin(child, parent)
  }

  /** One path is the other or one of its ancestors. */
  predicate Overlap(a: Path, b: Path) {
    AtOrWithin(a, b) || AtOrWithin(b, a)
  }

  predicate IsAbsolute(p: Path) {
    StartsWith(p, "/")
  }

  function JoinedBySlash(parts: seq<string>): string
    requires parts != []
  {
    if |parts| == 1 then parts[0] else parts[0] + "/" + JoinedBySlash(parts[1..])
  }

  lemma {:induction false} SplitAtSlash(a: string, b: string)
    ensures Split(a + "/" + b, '/') == Split(a, '/') + Split(b, '/')
  {
    var s := a + "/" + b;
    if a == "" {
      assert s[1..] == b;
    } else {
      assert s[1..] == a[1..] + "/" + b;
      SplitAtSlash(a[1..], b);
    }
  }

  lemma {:induction false} JoinedAgain(s: string)
    ensures JoinedBySlash(Split(s, '/')) == s
  {
    var parts := Split(s, '/');
    if s != "" {
      JoinedAgain(s[1..]);
      var rest := Split(s[1..], '/');
      if s[0] == '/' {
        assert parts[1..] == rest;
        assert s == "" + "/" + s[1..];
      } else {
        assert parts[0] == [s[0]] + rest[0] && parts[1..] == rest[1..];
        assert s == [s[0]] + JoinedBySlash(rest);
      }
    }
  }

  lemma {:induction false} JoinedConcat(a: seq<string>, b: seq<string>)
    requires a != [] && b != []
    ensures JoinedBySlash(a + b) == JoinedBySlash(a) + "/" + JoinedBySlash(b)
  {
    if |a| == 1 {
      assert (a + b)[1..] == b;
    } else {
      assert (a + b)[1..] == a[1..] + b;
      JoinedConcat(a[1..], b);
    }
  }

  /** A path other than the root is at or within another exactly if its components begin with those of the
      other; everything below the root is within it. */
  lemma AtOrWithinIff(child: Path, parent: Path)
    ensures parent != "/" ==> (AtOrWithin(child, parent) <==> Split(parent, '/') <= Split(child, '/'))
    ensures AtOrWithin(child, "/") <==> IsAbsolute(child)
  {
    hide Split, JoinedBySlash;
    if parent != "/" {
      if IsWithin(child, parent) {
        var rest := child[|parent| + 1..];
        assert child == parent + "/" + rest;
        SplitAtSlash(parent, rest);
      }
      if Split(parent, '/') <= Split(child, '/') {
        var more := Split(child, '/')[|Split(parent, '/')|..];
        JoinedAgain(parent);
        JoinedAgain(child);
        assert Split(child, '/') == Split(parent, '/') + more;
        if more == [] {
          assert Split(child, '/') == Split(parent, '/');
        } else {
          JoinedConcat(Split(parent, '/'), more);
          assert child == parent + "/" + JoinedBySlash(more);
          assert child[..|parent|] == parent && child[|parent|] == '/';
        }
      }
    }
  }

  // ----- Staging names -----

  /** Every staging name carries this infix; recovery refuses to delete anything else. */
  const STAGING_INFIX := ".tmp."

  predicate IsStagingName(p: Path) {
    exists i :: 0 <= i <= |p| && StartsWith(p[i..], STAGING_INFIX)
  }

  /** The search `find(".tmp.")`. */
  method CarriesStagingInfix(p: Path) returns (found: bool)
    ensures found <==> IsStagingName(p)
  {
    var i := 0;
    while i < |p|
      invariant 0 <= i <= |p|
      invariant forall k :: 0 <= k < i ==> !StartsWith(p[k..], STAGING_INFIX)
    {
      if StartsWith(p[i..], STAGING_INFIX) {
        return true;
      }
      i := i + 1;
    }
    found := false;
  }

  /** The name `make_temp_path` builds from the clock reading and the process-wide serial number. */
  function TempName(base: Path, tag: string, now: nat, serial: nat): (p: Path)
    ensures base != "" && IsAbsolute(base) ==> IsAbsolute(p)
  {
    base + "." + tag + STAGING_INFIX + Decimal(now) + "." + Decimal(serial)
  }

  ghost predicate HasSerial(p: Path, serial: nat) {
    exists base: Path, tag: string, now: nat :: p == TempName(base, tag, now, serial)
  }

  /** All staging names that carry this serial number or a later one. */
  ghost function TempsFrom(serial: nat): iset<Path> {
    iset p: Path, n: nat | serial <= n && HasSerial(p, n) :: p
  }

  lemma TempNameIsStaging(base: Path, tag: string, now: nat, serial: nat)
    ensures IsStagingName(TempName(base, tag, now, serial))
  {
    var p := TempName(base, tag, now, serial);
    var front := base + "." + tag;
    var rest := Decimal(now) + "." + Decimal(serial);
    assert p == front + STAGING_INFIX + rest;
    assert p[|front|..] == STAGING_INFIX + rest;
    assert StartsWith(p[|front|..], STAGING_INFIX);
  }

  /** The part of a name after its last dot. */
  function Extension(s: string): string {
    if '.' in s then Extension(s[1..]) else s
  }

  lemma {:induction false} ExtensionOf(front: string, ext: string)
    requires '.' !in ext
    ensures Extension(front + "." + ext) == ext
  {
    var s := front + "." + ext;
    assert s[|front|] == '.';
    if front == "" {
      assert s[1..] == ext;
    } else {
      assert s[1..] == front[1..] + "." + ext;
      ExtensionOf(front[1..], ext);
    }
  }

  /** No name carries two serial numbers, so names handed out under different numbers differ. */
  lemma SerialUnique(p: Path, m: nat, n: nat)
    requires HasSerial(p, m) && HasSerial(p, n)
    ensures m == n
  {
    var b, t, c :| p == TempName(b, t, c, m);
    var b', t', c' :| p == TempName(b', t', c', n);
    var front := b + "." + t + STAGING_INFIX + Decimal(c);
    var front' := b' + "." + t' + STAGING_INFIX + Decimal(c');
    assert p == front + "." + Decimal(m) == front' + "." + Decimal(n);
    ExtensionOf(front, Decimal(m));
    ExtensionOf(front', Decimal(n));
    DecimalInjective(m, n);
  }

  /** The name made with the current serial number belongs to the current staging names and to no
      later ones. */
  lemma NextNameFresh(base: Path, tag: string, now: nat, serial: nat)
    ensures TempName(base, tag, now, serial) in TempsFrom(serial)
    ensures TempName(base, tag, now, serial) !in TempsFrom(serial + 1)
  {
    var p := TempName(base, tag, now, serial);
    assert HasSerial(p, serial);
    if p in TempsFrom(serial + 1) {
      var n: nat :| serial + 1 <= n && HasSerial(p, n);
      SerialUnique(p, serial, n);
    }
  }

  lemma TempsShrink(early: nat, late: nat)
    requires early <= late
    ensures TempsFrom(late) <= TempsFrom(early)
  {
  }

  lemma TempIsStaging(p: Path, serial: nat)
    requires p in TempsFrom(serial)
    ensures IsStagingName(p)
  {
    var n: nat :| serial <= n && HasSerial(p, n);
    var b, t, c :| p == TempName(b, t, c, n);
    TempNameIsStaging(b, t, c, n);
  }
}
