/**
 * The console password prompt and the Windows credential check. Keystrokes,
 * the logon service and the user-name query are parameters: `keys` is what
 * `_getwch` returns call after call, `Logon` answers `LogonUserW`, and the
 * buffer that `GetUserNameW` fills is passed in.
 */
module Password {
  import opened Base

  const CR: WChar := 13
  const LF: WChar := 10
  const BS: WChar := 8
  const Space: WChar := 32
  const Star: WChar := 42

  predicate IsTerminator(ch: WChar)
  {
    ch == CR || ch == LF
  }

  // ---------------- The keystroke editor ----------------

  /** Reference definition of the buffer after the keys `ks` (none a terminator):
      a backspace drops the last character if there is one, any other key is appended. */
  function Edit(ks: seq<WChar>): seq<WChar>
  {
    if ks == [] then [] else Apply(Edit(ks[..|ks| - 1]), ks[|ks| - 1])
  }

  /** The buffer after one key that is not a terminator. */
  function Apply(before: seq<WChar>, k: WChar): seq<WChar>
  {
    if k == BS then (if before == [] then [] else before[..|before| - 1])
    else before + [k]
  }

  /** What one key echoes, given the buffer before it. */
  function KeyEcho(before: seq<WChar>, k: WChar): seq<WChar>
  {
    if k == BS then (if before == [] then [] else [BS, Space, BS])
    else [Star]
  }

  /** Reference definition of the echo of the keys `ks`. */
  function EchoOf(ks: seq<WChar>): seq<WChar>
  {
    if ks == [] then []
    else EchoOf(ks[..|ks| - 1]) + KeyEcho(Edit(ks[..|ks| - 1]), ks[|ks| - 1])
  }

  /** One more key typed extends the reference buffer and echo by that key's effect. */
  lemma TypeStep(typed: seq<WChar>, k: WChar)
    ensures Edit(typed + [k]) == Apply(Edit(typed), k)
    ensures EchoOf(typed + [k]) == EchoOf(typed) + KeyEcho(Edit(typed), k)
  {
    assert (typed + [k])[..|typed|] == typed;
  }

  /** The body of the read loop for a key that is not a terminator: a backspace
      pops the last character and echoes "\b \b" when there is one, any other
      key is appended and echoed as '*'. */
  method HandleKey(password: seq<WChar>, echo: seq<WChar>, ch: WChar) returns (password': seq<WChar>, echo': seq<WChar>)
    ensures password' == Apply(password, ch)
    ensures echo' == echo + KeyEcho(password, ch)
  {
    password', echo' := password, echo;
    if ch == BS {
      if password' != [] {
        password' := password'[..|password'| - 1];
        echo' := echo' + [BS, Space, BS];
      }
    } else {
      password' := password' + [ch];
      echo' := echo' + [Star];
    }
  }

  /** `getPasswordSecurely`: reads keys until a carriage return or line feed,
      editing the buffer and echoing as it goes; the terminator is echoed as the
      end of the line and not stored. `read` counts the keys taken, terminator
      included. The prompt shown before the loop is not part of `echo`. */
  method GetPasswordSecurely(keys: seq<WChar>) returns (password: seq<WChar>, read: nat, echo: seq<WChar>)
    requires exists i :: 0 <= i < |keys| && IsTerminator(keys[i])
    ensures 0 < read <= |keys| && IsTerminator(keys[read - 1])
    ensures forall j :: 0 <= j < read - 1 ==> !IsTerminator(keys[j])
    ensures password == Edit(keys[..read - 1])
    ensures echo == EchoOf(keys[..read - 1]) + [LF]
  {
    ghost var stop :| 0 <= stop < |keys| && IsTerminator(keys[stop]);
    password, echo := [], [];
    var i := 0;
    ghost var typed: seq<WChar> := [];
    while true
      invariant 0 <= i <= stop && typed == keys[..i]
      invariant forall j :: 0 <= j < i ==> !IsTerminator(keys[j])
      invariant password == Edit(typed) && echo == EchoOf(typed)
      decreases stop - i
    {
      var ch := keys[i];
      if ch == CR || ch == LF {
        echo := echo + [LF];
        break;
      }
      password, echo := HandleKey(password, echo, ch);
      TypeStep(typed, ch);
      typed := typed + [ch];
      assert typed == keys[..i + 1];
      i := i + 1;
    }
    read := i + 1;
  }

  /** The buffer never holds a backspace, and holds a terminator only if one was typed. */
  lemma {:induction false} EditHoldsNoControlKeys(ks: seq<WChar>)
    ensures BS !in Edit(ks)
    ensures (forall j :: 0 <= j < |ks| ==> !IsTerminator(ks[j])) ==>
              forall j :: 0 <= j < |Edit(ks)| ==> !IsTerminator(Edit(ks)[j])
    ensures |Edit(ks)| <= |ks|
  {
    if ks != [] {
      var init := ks[..|ks| - 1];
      EditHoldsNoControlKeys(init);
      var before := Edit(init);
      if ks[|ks| - 1] == BS && before != [] {
        assert forall j :: 0 <= j < |before| - 1 ==> before[..|before| - 1][j] == before[j];
      }
    }
  }

  /** Without backspaces the buffer is exactly what was typed. */
  lemma {:induction false} EditWithoutBackspace(ks: seq<WChar>)
    requires BS !in ks
    ensures Edit(ks) == ks
  {
    if ks != [] {
      var init := ks[..|ks| - 1];
      EditWithoutBackspace(init);
      assert ks == init + [ks[|ks| - 1]];
    }
  }

  /** One line of a console: its cells and the cursor column. A backspace moves the
      cursor left (not past column 0); any other character is written at the cursor,
      which then moves right. */
  datatype Line = Line(cells: seq<WChar>, cursor: nat)

  function Put(l: Line, ch: WChar): Line
  {
    if ch == BS then Line(l.cells, if l.cursor == 0 then 0 else l.cursor - 1)
    else if l.cursor < |l.cells| then Line(l.cells[l.cursor := ch], l.cursor + 1)
    else Line(l.cells + [ch], l.cursor + 1)
  }

  /** The console line after writing `out` to an empty line. */
  function Render(out: seq<WChar>): Line
  {
    if out == [] then Line([], 0) else Put(Render(out[..|out| - 1]), out[|out| - 1])
  }

  /** The line shows as many stars as the buffer holds characters, the cursor right
      after them, and blanks (the erased stars) beyond. */
  ghost predicate ShowsStars(l: Line, count: nat)
  {
    && l.cursor == count <= |l.cells|
    && (forall j :: 0 <= j < count ==> l.cells[j] == Star)
    && (forall j :: count <= j < |l.cells| ==> l.cells[j] == Space)
  }

  lemma RenderSnoc(out: seq<WChar>, ch: WChar)
    ensures Render(out + [ch]) == Put(Render(out), ch)
  {
    assert (out + [ch])[..|out + [ch]| - 1] == out;
  }

  /** A star written at the cursor extends the masked text by one. */
  lemma StarShows(l: Line, count: nat)
    requires ShowsStars(l, count)
    ensures ShowsStars(Put(l, Star), count + 1)
  {
  }

  /** "\b \b" blanks the last star and leaves the cursor on it. */
  lemma EraseShows(l: Line, count: nat)
    requires ShowsStars(l, count + 1)
    ensures ShowsStars(Put(Put(Put(l, BS), Space), BS), count)
  {
    var l1 := Put(l, BS);
    assert l1 == Line(l.cells, count);
    var l2 := Put(l1, Space);
    assert l2 == Line(l.cells[count := Space], count + 1);
  }

  /** The echo masks the buffer: the console shows one star per stored character. */
  lemma {:induction false} EchoShowsStars(ks: seq<WChar>)
    ensures ShowsStars(Render(EchoOf(ks)), |Edit(ks)|)
  {
    if ks != [] {
      var init := ks[..|ks| - 1];
      EchoShowsStars(init);
      var before := Edit(init);
      var out := EchoOf(init);
      if ks[|ks| - 1] == BS {
        if before != [] {
          RenderSnoc(out, BS);
          RenderSnoc(out + [BS], Space);
          RenderSnoc(out + [BS] + [Space], BS);
          assert out + [BS, Space, BS] == out + [BS] + [Space] + [BS];
          EraseShows(Render(out), |before| - 1);
        } else {
          assert EchoOf(ks) == out;
        }
      } else {
        RenderSnoc(out, Star);
        StarShows(Render(out), |before|);
      }
    }
  }

  // ---------------- Credential verification ----------------

  /** The `LOGON32_LOGON_*` types, in the order they are tried. */
  datatype LogonType = Interactive | Network | Batch | Service

  /** The numeric `dwLogonType` passed to `LogonUserW`: `LOGON32_LOGON_INTERACTIVE`
      is 2, and the later types follow in the order they are tried. */
  function LogonCode(t: LogonType): (code: nat)
    ensures 2 <= code < 2 + |LogonTypes|
    ensures LogonTypes[code - 2] == t
  {
    match t
    case Interactive => 2
    case Network => 3
    case Batch => 4
    case Service => 5
  }

  /** The domains tried: a null pointer, `"."`, and `"MicrosoftAccount"`. */
  datatype Domain = NoDomain | LocalDot | MicrosoftAccount

  datatype Attempt = Attempt(logonType: LogonType, domain: Domain)

  const LogonTypes: seq<LogonType> := [Interactive, Network, Batch, Service]
  const Domains: seq<Domain> := [NoDomain, LocalDot, MicrosoftAccount]

  /** `LogonUserW(username, domain, password, dwLogonType, ...)` succeeds or not. */
  type Logon = (seq<WChar>, Domain, seq<WChar>, nat) -> bool

  /** Every pair, logon types outermost, in the order of the nested loops. */
  const Attempts: seq<Attempt> := [
    Attempt(Interactive, NoDomain), Attempt(Interactive, LocalDot), Attempt(Interactive, MicrosoftAccount),
    Attempt(Network, NoDomain), Attempt(Network, LocalDot), Attempt(Network, MicrosoftAccount),
    Attempt(Batch, NoDomain), Attempt(Batch, LocalDot), Attempt(Batch, MicrosoftAccount),
    Attempt(Service, NoDomain), Attempt(Service, LocalDot), Attempt(Service, MicrosoftAccount)]

  /** Pair number `t * 3 + d` combines the `t`-th logon type with the `d`-th domain,
      so the attempts are all 4 x 3 combinations, each once. */
  lemma AttemptAt(t: nat, d: nat)
    requires t < |LogonTypes| && d < |Domains|
    ensures t * |Domains| + d < |Attempts|
    ensures Attempts[t * |Domains| + d] == Attempt(LogonTypes[t], Domains[d])
  {
  }

  lemma AttemptsCoverAllPairs(a: Attempt)
    ensures a in Attempts
  {
    var t := match a.logonType case Interactive => 0 case Network => 1 case Batch => 2 case Service => 3;
    var d := match a.domain case NoDomain => 0 case LocalDot => 1 case MicrosoftAccount => 2;
    AttemptAt(t, d);
  }

  predicate Accepts(logon: Logon, username: seq<WChar>, password: seq<WChar>, a: Attempt)
  {
    logon(username, a.domain, password, LogonCode(a.logonType))
  }

  /** `verifyWindowsCredentials`: tries the pairs in order and stops at the first
      success. `tried` lists the pairs passed to `LogonUserW`. */
  method VerifyWindowsCredentials(logon: Logon, username: seq<WChar>, password: seq<WChar>)
    returns (ok: bool, tried: seq<Attempt>)
    ensures ok <==> exists i :: 0 <= i < |Attempts| && Accepts(logon, username, password, Attempts[i])
    ensures 0 < |tried| <= |Attempts| && tried == Attempts[..|tried|]
    ensures ok ==> Accepts(logon, username, password, tried[|tried| - 1])
    ensures forall j :: 0 <= j < |tried| - 1 ==> !Accepts(logon, username, password, tried[j])
    ensures !ok ==> tried == Attempts && !Accepts(logon, username, password, tried[|tried| - 1])
  {
    tried := [];
    for t := 0 to |LogonTypes|
      invariant tried == Attempts[..t * |Domains|]
      invariant forall j :: 0 <= j < |tried| ==> !Accepts(logon, username, password, tried[j])
    {
      for d := 0 to |Domains|
        invariant tried == Attempts[..t * |Domains| + d]
        invariant forall j :: 0 <= j < |tried| ==> !Accepts(logon, username, password, tried[j])
      {
        var attempt := Attempt(LogonTypes[t], Domains[d]);
        AttemptAt(t, d);
        assert Attempts[..t * |Domains| + d + 1] == tried + [attempt];
        tried := tried + [attempt];
        if logon(username, attempt.domain, password, LogonCode(attempt.logonType)) {
          return true, tried;
        }
      }
    }
    ok := false;
    assert tried == Attempts;
  }

  /** `getCurrentUsername`: the name `GetUserNameW` wrote, up to its terminating
      NUL, or the empty name when the call fails (`None`). */
  function CurrentUsername(buffer: Option<seq<WChar>>): (name: seq<WChar>)
    ensures buffer.None? ==> name == []
    ensures buffer.Some? ==> name <= buffer.value && (|name| == |buffer.value| || buffer.value[|name|] == 0)
    ensures 0 !in name
  {
    match buffer
    case None => []
    case Some(b) => UpToNul(b)
  }

  function UpToNul(b: seq<WChar>): (r: seq<WChar>)
    ensures r <= b && 0 !in r && (|r| == |b| || b[|r|] == 0)
  {
    if b == [] || b[0] == 0 then [] else [b[0]] + UpToNul(b[1..])
  }

  /** The conversion `std::wstring(s.begin(), s.end())`: each `char` becomes one
      `wchar_t`. With a signed `char`, bytes from 0x80 on are negative and
      sign-extend to 0xFF80..0xFFFF. */
  function Widen(b: Byte): WChar
  {
    if b < 0x80 then b as int as WChar else (b as int + 0xFF00) as WChar
  }

  function WidenAll(s: Bytes): (w: seq<WChar>)
    ensures |w| == |s|
    ensures forall i :: 0 <= i < |s| ==> w[i] == Widen(s[i])
  {
    seq(|s|, i requires 0 <= i < |s| => Widen(s[i]))
  }

  /** The low byte of a wide character. */
  function Narrow(w: WChar): Byte
  {
    (w as int % 0x100) as Byte
  }

  /** Widening loses nothing: the low byte gives the original back, so distinct
      passwords stay distinct. */
  lemma WidenRoundTrip(s: Bytes)
    ensures forall i :: 0 <= i < |s| ==> Narrow(WidenAll(s)[i]) == s[i]
    ensures forall t :: |t| == |s| && WidenAll(t) == WidenAll(s) ==> t == s
  {
    forall t | |t| == |s| && WidenAll(t) == WidenAll(s)
      ensures t == s
    {
      forall i | 0 <= i < |s|
        ensures t[i] == s[i]
      {
        assert Narrow(WidenAll(t)[i]) == t[i];
      }
    }
  }

  /** `checkPassword`: 1 exactly when some logon of the current user with the
      widened password succeeds, 0 otherwise. */
  method CheckPassword(logon: Logon, userBuffer: Option<seq<WChar>>, password: Bytes) returns (r: int, tried: seq<Attempt>)
    ensures r == 0 || r == 1
    ensures r == 1 <==>
              exists i :: 0 <= i < |Attempts| && Accepts(logon, CurrentUsername(userBuffer), WidenAll(password), Attempts[i])
    ensures 0 < |tried| <= |Attempts| && tried == Attempts[..|tried|]
  {
    var wpassword := WidenAll(password);
    var ok;
    ok, tried := VerifyWindowsCredentials(logon, CurrentUsername(userBuffer), wpassword);
    if ok {
      r := 1;
    } else {
      r := 0;
    }
  }
}
