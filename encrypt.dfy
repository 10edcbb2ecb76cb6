/**
 * The driver of the encryptor: it lists the regular files beside the program,
 * drops the program itself and a fixed set of names, encrypts every remaining
 * file in place, asks for a password it never uses, and decrypts every file.
 * Each file is read line by line, so its text reaches the codec normalised to
 * end in a line feed.
 */
module Encrypt {
  import opened Base
  import opened Primitives
  import opened Files
  import opened Rsa

  // ---------------- Paths and the file filter ----------------

  predicate IsSeparator(ch: char)
  {
    ch == '/' || ch == '\\'
  }

  /** `fs::path::filename()`: what follows the last separator. */
  function FileName(path: string): (r: string)
    ensures |r| <= |path|
    ensures forall i :: 0 <= i < |r| ==> !IsSeparator(r[i])
  {
    if path == [] then []
    else if IsSeparator(path[|path| - 1]) then []
    else FileName(path[..|path| - 1]) + [path[|path| - 1]]
  }

  /** The file name is a suffix of the path, and it is either the whole path or
      preceded by a separator: no shorter suffix qualifies. */
  lemma {:induction false} FileNameSuffix(path: string)
    ensures FileName(path) == path[|path| - |FileName(path)|..]
    ensures |FileName(path)| < |path| ==> IsSeparator(path[|path| - |FileName(path)| - 1])
  {
    if path != [] && !IsSeparator(path[|path| - 1]) {
      var init := path[..|path| - 1];
      FileNameSuffix(init);
      var r := FileName(init);
      assert path[|path| - |r| - 1..] == init[|init| - |r|..] + [path[|path| - 1]];
    }
  }

  /** The file name of a path that ends in a separator followed by `name` is `name`. */
  lemma {:induction false} FileNameAfterSeparator(dir: string, name: string)
    requires |dir| > 0 && IsSeparator(dir[|dir| - 1])
    requires forall i :: 0 <= i < |name| ==> !IsSeparator(name[i])
    ensures FileName(dir + name) == name
  {
    if name == [] {
      assert dir + name == dir;
    } else {
      var init := name[..|name| - 1];
      FileNameAfterSeparator(dir, init);
      assert (dir + name)[..|dir + name| - 1] == dir + init;
      assert name == init + [name[|name| - 1]];
    }
  }

  /** The program is started as `./encrypt.exe`, so its own file name is `encrypt.exe`. */
  lemma SelfFileName()
    ensures FileName(SelfPath) == "encrypt.exe"
  {
    assert SelfPath == "./" + "encrypt.exe";
    FileNameAfterSeparator("./", "encrypt.exe");
  }

  /** One entry of `fs::directory_iterator` over the program's directory. */
  datatype DirEntry = DirEntry(name: string, isRegular: bool)

  /** The first loop of `find_neighboring_files`: the regular files, in listing order. */
  function RegularFiles(listing: seq<DirEntry>): seq<string>
  {
    if listing == [] then []
    else
      var last := listing[|listing| - 1];
      RegularFiles(listing[..|listing| - 1]) + (if last.isRegular then [last.name] else [])
  }

  predicate Dropped(name: string, self: string, exclude: seq<string>)
  {
    name == self || name in exclude
  }

  /** Reference definition of the second loop: `names` without `self` and the
      excluded names, in their original order. */
  function Neighbours(names: seq<string>, self: string, exclude: seq<string>): seq<string>
  {
    if names == [] then []
    else
      var last := names[|names| - 1];
      Neighbours(names[..|names| - 1], self, exclude) + (if Dropped(last, self, exclude) then [] else [last])
  }

  /** A name is kept exactly when it was listed and is neither `self` nor excluded. */
  lemma {:induction false} NeighboursMembership(names: seq<string>, self: string, exclude: seq<string>, x: string)
    ensures x in Neighbours(names, self, exclude) <==> x in names && !Dropped(x, self, exclude)
  {
    if names != [] {
      var init := names[..|names| - 1];
      NeighboursMembership(init, self, exclude, x);
      assert names == init + [names[|names| - 1]];
    }
  }

  /** The filter keeps relative order: it distributes over concatenation. */
  lemma {:induction false} NeighboursAppend(a: seq<string>, b: seq<string>, self: string, exclude: seq<string>)
    ensures Neighbours(a + b, self, exclude) == Neighbours(a, self, exclude) + Neighbours(b, self, exclude)
  {
    if b != [] {
      var init := b[..|b| - 1];
      assert (a + b)[..|a + b| - 1] == a + init;
      NeighboursAppend(a, init, self, exclude);
    } else {
      assert a + b == a;
    }
  }

  /** One step of the erase loop keeps its invariants: the part already passed is
      the filter of the names seen, and the part still ahead is the names unseen. */
  lemma EraseStep(files: seq<string>, it: nat, all: seq<string>, seen: nat, self: string, exclude: seq<string>)
    requires it < |files| && seen < |all|
    requires files[..it] == Neighbours(all[..seen], self, exclude)
    requires files[it..] == all[seen..]
    ensures files[it] == all[seen]
    ensures Dropped(files[it], self, exclude) ==>
              && (files[..it] + files[it + 1..])[..it] == Neighbours(all[..seen + 1], self, exclude)
              && (files[..it] + files[it + 1..])[it..] == all[seen + 1..]
    ensures !Dropped(files[it], self, exclude) ==>
              files[..it + 1] == Neighbours(all[..seen + 1], self, exclude) && files[it + 1..] == all[seen + 1..]
  {
    assert files[it] == files[it..][0] == all[seen..][0] == all[seen];
    assert all[..seen + 1][..seen] == all[..seen];
    assert files[it + 1..] == files[it..][1..] == all[seen..][1..] == all[seen + 1..];
    if Dropped(files[it], self, exclude) {
      var next := files[..it] + files[it + 1..];
      assert next[..it] == files[..it];
      assert next[it..] == files[it + 1..];
    } else {
      assert files[..it + 1] == files[..it] + [files[it]];
    }
  }

  /** The `directory_iterator` loop of `findNeighboringFiles`: collects the file
      name of every regular file, in listing order. */
  method ListRegularFiles(listing: seq<DirEntry>) returns (files: seq<string>)
    ensures files == RegularFiles(listing)
  {
    files := [];
    var k := 0;
    while k < |listing|
      invariant 0 <= k <= |listing|
      invariant files == RegularFiles(listing[..k])
    {
      assert listing[..k + 1][..k] == listing[..k];
      if listing[k].isRegular {
        files := files + [listing[k].name];
      }
      k := k + 1;
    }
    assert listing[..k] == listing;
  }

  /** `find_neighboring_files`: collects the regular files of the listing, then
      erases in place every path whose file name is the given file's or is in
      `exclude`; `erase` returns the successor, so no path is skipped. */
  method FindNeighboringFiles(filePath: string, listing: seq<DirEntry>, exclude: seq<string>) returns (files: seq<string>)
    ensures files == Neighbours(RegularFiles(listing), FileName(filePath), exclude)
    ensures forall f :: f in files <==> f in RegularFiles(listing) && f != FileName(filePath) && f !in exclude
  {
    var self := FileName(filePath);
    files := ListRegularFiles(listing);

    ghost var all := files;
    ghost var seen := 0;
    var it := 0;
    while it < |files|
      invariant 0 <= it <= |files| && 0 <= seen <= |all|
      invariant files[..it] == Neighbours(all[..seen], self, exclude)
      invariant files[it..] == all[seen..]
      decreases |files| - it
    {
      EraseStep(files, it, all, seen, self, exclude);
      if files[it] == self || files[it] in exclude {
        files := files[..it] + files[it + 1..];
      } else {
        it := it + 1;
      }
      seen := seen + 1;
    }
    assert all[..seen] == all;
    assert files == files[..it];
    forall f
      ensures f in files <==> f in RegularFiles(listing) && f != self && f !in exclude
    {
      NeighboursMembership(all, self, exclude, f);
    }
  }

  // ---------------- Reading a file line by line ----------------

  /** Reference definition of the read loop's result: the content itself when it
      is empty or ends in a line feed, otherwise the content plus a line feed. */
  function Normalise(content: Bytes): Bytes
  {
    if content == [] || content[|content| - 1] == NL then content else content + [NL]
  }

  /** A normalised text is empty or ends in a line feed, so reading it again changes nothing. */
  lemma NormaliseIdempotent(content: Bytes)
    ensures Normalise(Normalise(content)) == Normalise(content)
    ensures Normalise(content) == [] || Normalise(content)[|Normalise(content)| - 1] == NL
    ensures content <= Normalise(content) && |Normalise(content)| <= |content| + 1
  {
  }

  /** One `getline` at a line start `pos` reads the line up to the next line
      feed and moves past it, or to the end when there is none. */
  lemma ReadLineStep(content: Bytes, pos: nat)
    requires pos < |content| && (pos == 0 || content[pos - 1] == NL)
    ensures var (line, after) := SplitAt(content[pos..], NL);
            var next := |content| - |after|;
            && pos < next <= |content|
            && Normalise(content[..pos]) + line + [NL] == Normalise(content[..next])
            && (next < |content| ==> content[next - 1] == NL)
  {
    var rest := content[pos..];
    SplitAtParts(rest, NL);
    if NL in rest {
      FullLineStep(content, pos, SplitAt(rest, NL).0, SplitAt(rest, NL).1);
    } else {
      LastLineStep(content, pos);
    }
  }

  /** A line ended by a line feed: the text read so far grows by that line and its line feed. */
  lemma FullLineStep(content: Bytes, pos: nat, line: Bytes, after: Bytes)
    requires pos < |content| && (pos == 0 || content[pos - 1] == NL)
    requires content[pos..] == line + [NL] + after
    ensures var next := pos + |line| + 1;
            && next == |content| - |after|
            && Normalise(content[..pos]) + line + [NL] == Normalise(content[..next])
            && content[next - 1] == NL
  {
    var next := pos + |line| + 1;
    assert Normalise(content[..pos]) == content[..pos];
    assert content[..next] == content[..pos] + content[pos..][..|line| + 1] by {
      assert content == content[..pos] + content[pos..];
    }
    assert content[pos..][..|line| + 1] == line + [NL];
  }

  /** The last line, with no line feed after it: reading it ends the text with a line feed. */
  lemma LastLineStep(content: Bytes, pos: nat)
    requires pos < |content| && (pos == 0 || content[pos - 1] == NL)
    requires NL !in content[pos..]
    ensures Normalise(content[..pos]) + content[pos..] + [NL] == Normalise(content)
  {
    assert Normalise(content[..pos]) == content[..pos];
    assert content == content[..pos] + content[pos..];
    assert content[|content| - 1] == content[pos..][|content| - pos - 1];
  }

  /** `while (std::getline(fileRead, line)) { text += line; text += "\n"; }`:
      each successful `getline` takes the bytes up to the next line feed (or the
      end) and drops the line feed; `getline` fails once nothing is left. */
  method ReadText(content: Bytes) returns (text: Bytes)
    ensures text == Normalise(content)
  {
    text := [];
    var pos := 0;
    while pos < |content|
      invariant 0 <= pos <= |content|
      invariant text == Normalise(content[..pos])
      invariant pos < |content| ==> pos == 0 || content[pos - 1] == NL
      decreases |content| - pos
    {
      var (line, after) := SplitAt(content[pos..], NL);
      ReadLineStep(content, pos);
      text := text + line + [NL];
      pos := |content| - |after|;
    }
    assert content[..pos] == content;
  }

  // ---------------- Per-file encryption and decryption ----------------

  /** `bundle` is a bundle of `plaintext` sealed for `pub` with a 32-byte key and a 12-byte nonce. */
  ghost predicate SealedFor(c: Crypto, pub: RsaPublicKey, bundle: Bytes, plaintext: Bytes)
  {
    exists key, nonce, seed ::
      |key| == AesKeyLength && |nonce| == NonceLength && Envelope(c, plaintext, pub, key, nonce, seed) == Success(bundle)
  }

  /** A sealed file, read back line by line, decrypts to the text that was sealed. */
  lemma SealedOpens(c: Crypto, priv: RsaPrivateKey, bundle: Bytes, plaintext: Bytes)
    requires Lawful(c)
    requires SealedFor(c, PublicOf(priv), bundle, plaintext)
    ensures HybridDecrypt(c, Normalise(bundle), priv) == Success(plaintext)
  {
    var key, nonce, seed :| |key| == AesKeyLength && |nonce| == NonceLength
      && Envelope(c, plaintext, PublicOf(priv), key, nonce, seed) == Success(bundle);
    assert c.oaepEncrypt(PublicOf(priv), key, seed).Some?;
    EnvelopeRoundTrip(c, plaintext, priv, key, nonce, seed);
  }

  /** `encryptFileContent`: replaces the file's body by the bundle of its
      normalised text. An exception of `hybridEncrypt` propagates; a write stream
      that cannot open is only reported, and nothing is written. */
  method EncryptFileContent(c: Crypto, store: FileStore, name: string, pub: RsaPublicKey, rng: Rng)
    returns (r: Result<bool, EncryptError>)
    modifies store, rng
    ensures rng.drawn == old(rng.drawn) + EnvelopeDraw
    ensures var sealed := EnvelopeAt(c, Normalise(old(store.Contents(name))), pub, rng.stream, old(rng.drawn));
            && (sealed.Failure? ==> r == Failure(sealed.error) && store.files == old(store.files))
            && (sealed.Success? ==> r == Success(name !in store.unwritable))
            && (sealed.Success? && name !in store.unwritable ==> store.files == old(store.files)[name := sealed.value])
            && (sealed.Success? && name in store.unwritable ==> store.files == old(store.files))
    ensures forall f :: f != name ==> SameEntry(old(store.files), store.files, f)
  {
    var text := ReadText(store.Contents(name));
    var enc := HybridEncrypt(c, text, pub, rng);
    if enc.Failure? {
      return Failure(enc.error);
    }
    var written := store.Write(name, enc.value);
    r := Success(written);
  }

  /** `decryptFileContent`: replaces the file's body by the decryption of its
      text as the read loop delivers it. */
  method DecryptFileContent(c: Crypto, store: FileStore, name: string, priv: RsaPrivateKey)
    returns (r: Result<bool, DecryptError>)
    modifies store
    ensures var plain := HybridDecrypt(c, Normalise(old(store.Contents(name))), priv);
            && (plain.Failure? ==> r == Failure(plain.error) && store.files == old(store.files))
            && (plain.Success? ==> r == Success(name !in store.unwritable))
            && (plain.Success? && name !in store.unwritable ==> store.files == old(store.files)[name := plain.value])
            && (plain.Success? && name in store.unwritable ==> store.files == old(store.files))
    ensures forall f :: f != name ==> SameEntry(old(store.files), store.files, f)
  {
    var text := ReadText(store.Contents(name));
    var dec := HybridDecrypt(c, text, priv);
    if dec.Failure? {
      return Failure(dec.error);
    }
    var written := store.Write(name, dec.value);
    r := Success(written);
  }

  // ---------------- main ----------------

  predicate NoDuplicates(names: seq<string>)
  {
    forall i, j :: 0 <= i < j < |names| ==> names[i] != names[j]
  }

  predicate AllWritable(store: FileStore, names: seq<string>)
    reads store
  {
    forall f :: f in names ==> f !in store.unwritable
  }

  /** The file whose exception stopped a pass. */
  datatype Stopped<E> = Stopped(name: string, error: E)

  /** OAEP under `pub` accepts every AES-256 key. */
  ghost predicate WrapsAesKeys(c: Crypto, pub: RsaPublicKey)
  {
    forall key, seed :: |key| == AesKeyLength ==> c.oaepEncrypt(pub, key, seed).Some?
  }

  lemma CapacityWrapsAesKeys(c: Crypto, pub: RsaPublicKey)
    requires OaepLaws(c) && AesKeyLength <= OaepCapacity(pub)
    ensures WrapsAesKeys(c, pub)
  {
  }

  /** One more call of a pass keeps the files no call has named yet. */
  lemma FrameStep(files: seq<string>, done: nat, origin: map<string, Bytes>, before: map<string, Bytes>, after: map<string, Bytes>)
    requires done < |files|
    requires forall f :: f !in files[..done] ==> SameEntry(origin, before, f)
    requires forall f :: f != files[done] ==> SameEntry(before, after, f)
    ensures forall f :: f !in files[..done + 1] ==> SameEntry(origin, after, f)
  {
    assert files[..done + 1] == files[..done] + [files[done]];
    forall f | f !in files[..done + 1]
      ensures SameEntry(origin, after, f)
    {
      assert f !in files[..done] && f != files[done];
      assert SameEntry(origin, before, f) && SameEntry(before, after, f);
    }
  }

  /** What a pass leaves alone outside the prefix it went through, it leaves alone outside all its files. */
  lemma FrameWhole(files: seq<string>, done: nat, origin: map<string, Bytes>, after: map<string, Bytes>)
    requires done <= |files|
    requires forall f :: f !in files[..done] ==> SameEntry(origin, after, f)
    ensures forall f :: f !in files ==> SameEntry(origin, after, f)
  {
    forall f | f !in files
      ensures SameEntry(origin, after, f)
    {
      assert f !in files[..done];
    }
  }

  datatype Call = EncryptCall(name: string) | DecryptCall(name: string)

  function EncryptCalls(names: seq<string>): (r: seq<Call>)
    ensures |r| == |names| && forall i :: 0 <= i < |names| ==> r[i] == EncryptCall(names[i])
  {
    seq(|names|, i requires 0 <= i < |names| => EncryptCall(names[i]))
  }

  function DecryptCalls(names: seq<string>): (r: seq<Call>)
    ensures |r| == |names| && forall i :: 0 <= i < |names| ==> r[i] == DecryptCall(names[i])
  {
    seq(|names|, i requires 0 <= i < |names| => DecryptCall(names[i]))
  }

  /** One more call in the loop extends the record by the call on `files[done]`. */
  lemma CallsStep(files: seq<string>, done: nat)
    requires done < |files|
    ensures EncryptCalls(files[..done + 1]) == EncryptCalls(files[..done]) + [EncryptCall(files[done])]
    ensures DecryptCalls(files[..done + 1]) == DecryptCalls(files[..done]) + [DecryptCall(files[done])]
  {
    assert files[..done + 1] == files[..done] + [files[done]];
  }

  /** Every name in `names` holds a bundle sealing the normalised original text. */
  ghost predicate SealedUpTo(c: Crypto, pub: RsaPublicKey, origin: map<string, Bytes>, current: map<string, Bytes>, names: seq<string>)
  {
    forall f :: f in names ==> f in current && SealedFor(c, pub, current[f], Normalise(Lookup(origin, f)))
  }

  lemma SealedGrow(c: Crypto, pub: RsaPublicKey, origin: map<string, Bytes>, before: map<string, Bytes>,
                   names: seq<string>, name: string, bundle: Bytes)
    requires SealedUpTo(c, pub, origin, before, names) && name !in names
    requires SealedFor(c, pub, bundle, Normalise(Lookup(origin, name)))
    ensures SealedUpTo(c, pub, origin, before[name := bundle], names + [name])
  {
    forall f | f in names + [name]
      ensures f in before[name := bundle] && SealedFor(c, pub, before[name := bundle][f], Normalise(Lookup(origin, f)))
    {
      if f != name {
        assert f in names;
      }
    }
  }

  /** A bundle built from the random draws at `pos` is sealed for `pub`. */
  lemma SealedByDraws(c: Crypto, pub: RsaPublicKey, plaintext: Bytes, s: Entropy, pos: nat, bundle: Bytes)
    requires EnvelopeAt(c, plaintext, pub, s, pos) == Success(bundle)
    ensures SealedFor(c, pub, bundle, plaintext)
  {
    var key, nonce, seed := Block(s, pos, AesKeyLength),
                            Block(s, pos + AesKeyLength, NonceLength),
                            Block(s, pos + AesKeyLength + NonceLength, HashLength);
    assert Envelope(c, plaintext, pub, key, nonce, seed) == Success(bundle);
  }

  /** One turn of the encrypt loop: `encryptFileContent` on `files[done]`, keeping
      what the loop knows about the files before it. */
  method EncryptStep(c: Crypto, store: FileStore, pub: RsaPublicKey, rng: Rng, files: seq<string>, done: nat, ghost origin: map<string, Bytes>)
    returns (r: Result<bool, EncryptError>)
    requires done < |files|
    requires forall f :: f !in files[..done] ==> SameEntry(origin, store.files, f)
    requires NoDuplicates(files) && AllWritable(store, files) ==> SealedUpTo(c, pub, origin, store.files, files[..done])
    modifies store, rng
    ensures rng.drawn == old(rng.drawn) + EnvelopeDraw
    ensures forall f :: f !in files[..done + 1] ==> SameEntry(origin, store.files, f)
    ensures r.Failure? ==> store.files == old(store.files)
    ensures WrapsAesKeys(c, pub) ==> r.Success?
    ensures r.Success? && NoDuplicates(files) && AllWritable(store, files) ==>
              SealedUpTo(c, pub, origin, store.files, files[..done + 1])
  {
    ghost var before := store.files;
    ghost var pos := rng.drawn;
    var name := files[done];
    r := EncryptFileContent(c, store, name, pub, rng);
    FrameStep(files, done, origin, before, store.files);
    assert files[..done + 1] == files[..done] + [name];
    if r.Success? && NoDuplicates(files) && AllWritable(store, files) {
      assert name !in files[..done];
      SealedByDraws(c, pub, Normalise(Lookup(before, name)), rng.stream, pos, store.files[name]);
      SealedGrow(c, pub, origin, before, files[..done], name, store.files[name]);
    }
  }

  /** The encrypt loop of `main`: `encryptFileContent` on the files in order, `done`
      of them; an exception ends the program, leaving the remaining files untouched. */
  method EncryptPass(c: Crypto, store: FileStore, pub: RsaPublicKey, rng: Rng, files: seq<string>)
    returns (done: nat, stop: Option<Stopped<EncryptError>>, calls: seq<Call>)
    modifies store, rng
    ensures done <= |files|
    ensures calls == EncryptCalls(files[..done])
    ensures rng.drawn == old(rng.drawn) + done * EnvelopeDraw
    ensures stop.None? ==> done == |files|
    ensures stop.Some? ==> 0 < done && stop.value.name == files[done - 1]
    ensures forall f :: f !in files[..done] ==> SameEntry(old(store.files), store.files, f)
    ensures stop.Some? ==> forall f :: f !in files[..done - 1] ==> SameEntry(old(store.files), store.files, f)
    ensures WrapsAesKeys(c, pub) ==> stop.None?
    ensures stop.None? && NoDuplicates(files) && AllWritable(store, files) ==>
              forall f :: f in files ==> f in store.files && SealedFor(c, pub, store.files[f], Normalise(Lookup(old(store.files), f)))
  {
    stop := None;
    done := 0;
    calls := [];
    while done < |files|
      invariant 0 <= done <= |files|
      invariant calls == EncryptCalls(files[..done])
      invariant rng.drawn == old(rng.drawn) + done * EnvelopeDraw
      invariant forall f :: f !in files[..done] ==> SameEntry(old(store.files), store.files, f)
      invariant NoDuplicates(files) && AllWritable(store, files) ==> SealedUpTo(c, pub, old(store.files), store.files, files[..done])
    {
      var name := files[done];
      var r := EncryptStep(c, store, pub, rng, files, done, old(store.files));
      calls := calls + [EncryptCall(name)];
      CallsStep(files, done);
      if r.Failure? {
        assert files[..done + 1 - 1] == files[..done];
        return done + 1, Some(Stopped(name, r.error)), calls;
      }
      done := done + 1;
    }
    assert files[..done] == files;
  }

  /** Every name in `names` holds a bundle that the private key opens. */
  ghost predicate OpensUpTo(c: Crypto, priv: RsaPrivateKey, origin: map<string, Bytes>, names: seq<string>)
  {
    forall f :: f in names ==> HybridDecrypt(c, Normalise(Lookup(origin, f)), priv).Success?
  }

  /** Every name in `names` holds the plaintext its original bundle decrypts to. */
  ghost predicate RestoredUpTo(c: Crypto, priv: RsaPrivateKey, origin: map<string, Bytes>, current: map<string, Bytes>, names: seq<string>)
  {
    forall f :: f in names ==> f in current && HybridDecrypt(c, Normalise(Lookup(origin, f)), priv) == Success(current[f])
  }

  lemma OpenedGrow(c: Crypto, priv: RsaPrivateKey, origin: map<string, Bytes>, before: map<string, Bytes>,
                   names: seq<string>, name: string, written: bool)
    requires name !in names && Lookup(before, name) == Lookup(origin, name)
    requires HybridDecrypt(c, Normalise(Lookup(before, name)), priv).Success?
    requires OpensUpTo(c, priv, origin, names)
    requires written ==> RestoredUpTo(c, priv, origin, before, names)
    ensures OpensUpTo(c, priv, origin, names + [name])
    ensures written ==>
              RestoredUpTo(c, priv, origin, before[name := HybridDecrypt(c, Normalise(Lookup(before, name)), priv).value], names + [name])
  {
    forall f | f in names + [name]
      ensures HybridDecrypt(c, Normalise(Lookup(origin, f)), priv).Success?
    {
      if f != name {
        assert f in names;
      }
    }
    var after := before[name := HybridDecrypt(c, Normalise(Lookup(before, name)), priv).value];
    if written {
      forall f | f in names + [name]
        ensures f in after && HybridDecrypt(c, Normalise(Lookup(origin, f)), priv) == Success(after[f])
      {
        if f != name {
          assert f in names;
        }
      }
    }
  }

  /** One turn of the decrypt loop: `decryptFileContent` on `files[done]`, keeping
      what the loop knows about the files before it. */
  method DecryptStep(c: Crypto, store: FileStore, priv: RsaPrivateKey, files: seq<string>, done: nat, ghost origin: map<string, Bytes>)
    returns (r: Result<bool, DecryptError>)
    requires done < |files|
    requires forall f :: f !in files[..done] ==> SameEntry(origin, store.files, f)
    requires NoDuplicates(files) ==> OpensUpTo(c, priv, origin, files[..done])
    requires NoDuplicates(files) && AllWritable(store, files) ==> RestoredUpTo(c, priv, origin, store.files, files[..done])
    modifies store
    ensures forall f :: f !in files[..done + 1] ==> SameEntry(origin, store.files, f)
    ensures r.Failure? ==> store.files == old(store.files)
    ensures r.Failure? && NoDuplicates(files) ==> !HybridDecrypt(c, Normalise(Lookup(origin, files[done])), priv).Success?
    ensures r.Success? && NoDuplicates(files) ==> OpensUpTo(c, priv, origin, files[..done + 1])
    ensures r.Success? && NoDuplicates(files) && AllWritable(store, files) ==>
              RestoredUpTo(c, priv, origin, store.files, files[..done + 1])
  {
    ghost var before := store.files;
    var name := files[done];
    if NoDuplicates(files) {
      assert name !in files[..done];
      assert SameEntry(origin, before, name);
    }
    r := DecryptFileContent(c, store, name, priv);
    FrameStep(files, done, origin, before, store.files);
    assert files[..done + 1] == files[..done] + [name];
    if r.Success? && NoDuplicates(files) {
      OpenedGrow(c, priv, origin, before, files[..done], name, AllWritable(store, files));
    }
  }

  /** The decrypt loop of `main`: `decryptFileContent` on the files in order, `done`
      of them; an exception ends the program, leaving the remaining files as they were. */
  method DecryptPass(c: Crypto, store: FileStore, priv: RsaPrivateKey, files: seq<string>)
    returns (done: nat, stop: Option<Stopped<DecryptError>>, calls: seq<Call>)
    modifies store
    ensures done <= |files|
    ensures calls == DecryptCalls(files[..done])
    ensures stop.None? ==> done == |files|
    ensures stop.Some? ==> 0 < done && stop.value.name == files[done - 1]
    ensures forall f :: f !in files[..done] ==> SameEntry(old(store.files), store.files, f)
    ensures stop.Some? ==> forall f :: f !in files[..done - 1] ==> SameEntry(old(store.files), store.files, f)
    ensures NoDuplicates(files) ==>
              (stop.None? <==> forall f :: f in files ==> HybridDecrypt(c, Normalise(Lookup(old(store.files), f)), priv).Success?)
    ensures stop.None? && NoDuplicates(files) && AllWritable(store, files) ==>
              forall f :: f in files ==> f in store.files && HybridDecrypt(c, Normalise(Lookup(old(store.files), f)), priv) == Success(store.files[f])
  {
    stop := None;
    done := 0;
    calls := [];
    while done < |files|
      invariant 0 <= done <= |files|
      invariant calls == DecryptCalls(files[..done])
      invariant forall f :: f !in files[..done] ==> SameEntry(old(store.files), store.files, f)
      invariant NoDuplicates(files) ==> OpensUpTo(c, priv, old(store.files), files[..done])
      invariant NoDuplicates(files) && AllWritable(store, files) ==> RestoredUpTo(c, priv, old(store.files), store.files, files[..done])
    {
      var name := files[done];
      var r := DecryptStep(c, store, priv, files, done, old(store.files));
      calls := calls + [DecryptCall(name)];
      CallsStep(files, done);
      if r.Failure? {
        assert files[..done + 1 - 1] == files[..done] && name in files;
        return done + 1, Some(Stopped(name, r.error)), calls;
      }
      done := done + 1;
    }
    assert files[..done] == files;
  }

  const SelfPath: string := "./encrypt.exe"
  const KeyFile: string := "rsa_key.pem"
  /** The scratch file `getUserInputViaPowerShell` has PowerShell write the
      answer to, in the working directory, and deletes after reading it. */
  const PsInputFile: string := "ps_input.txt"
  const Exclusions: seq<string> :=
    ["CMakeCache.txt", "datascrape.exe", "encrypt.exe", "rsa.cpp", "rsa.h", "tetris.exe", "tetris.cpp", "tetrisPlayable.cpp"]

  datatype RunOutcome =
    | KeyFailed(keyError: KeyError)
    | EncryptFailed(key: RsaPrivateKey, encryptStop: Stopped<EncryptError>)
    | DecryptFailed(key: RsaPrivateKey, decryptStop: Stopped<DecryptError>)
    | Completed(key: RsaPrivateKey)

  /** The directory after `loadOrGenerateKey` returned `key`. */
  function AfterKeyPhase(c: Crypto, before: map<string, Bytes>, key: RsaPrivateKey): map<string, Bytes>
  {
    if KeyFile in before then before else before[KeyFile := c.pemEncode(key)]
  }

  /** No file outside `names` and `spared` changed between `before` and `after`. */
  ghost predicate KeptOutside(before: map<string, Bytes>, after: map<string, Bytes>, names: seq<string>, spared: set<string>)
  {
    forall f :: f !in names && f !in spared ==> SameEntry(before, after, f)
  }

  /** Every call in the log names a listed file. */
  predicate CallsWithin(log: seq<Call>, files: seq<string>)
  {
    forall i :: 0 <= i < |log| ==> log[i].name in files
  }

  /** The log of a run the encrypt pass stopped: encryption of a non-empty
      prefix of the files, the last of which is `name`. */
  ghost predicate StoppedEncrypting(log: seq<Call>, files: seq<string>, name: string)
  {
    exists k :: 0 < k <= |files| && log == EncryptCalls(files[..k]) && name == files[k - 1]
  }

  /** The log of a run the decrypt pass stopped: encryption of every file, then
      decryption of a non-empty prefix of them, the last of which is `name`. */
  ghost predicate StoppedDecrypting(log: seq<Call>, files: seq<string>, name: string)
  {
    exists k :: 0 < k <= |files| && log == EncryptCalls(files) + DecryptCalls(files[..k]) && name == files[k - 1]
  }

  /** Every listed file of `before` holds a bundle the private key opens. */
  ghost predicate AllOpen(c: Crypto, priv: RsaPrivateKey, before: map<string, Bytes>, files: seq<string>)
  {
    forall f :: f in files ==> HybridDecrypt(c, Normalise(Lookup(before, f)), priv).Success?
  }

  /** Every listed file of `sealed` opens to the normalised text it had in `origin`. */
  ghost predicate AllOpenTo(c: Crypto, priv: RsaPrivateKey, sealed: map<string, Bytes>, origin: map<string, Bytes>, files: seq<string>)
  {
    forall f :: f in files ==> HybridDecrypt(c, Normalise(Lookup(sealed, f)), priv) == Success(Normalise(Lookup(origin, f)))
  }

  /** Every listed file of `after` holds what its `before` bundle decrypts to. */
  ghost predicate AllDecrypted(c: Crypto, priv: RsaPrivateKey, before: map<string, Bytes>, after: map<string, Bytes>, files: seq<string>)
  {
    forall f :: f in files ==> f in after && HybridDecrypt(c, Normalise(Lookup(before, f)), priv) == Success(after[f])
  }

  /** Every listed file of `after` holds its normalised text of `origin`. */
  ghost predicate AllRestored(origin: map<string, Bytes>, after: map<string, Bytes>, files: seq<string>)
  {
    forall f :: f in files ==> f in after && after[f] == Normalise(Lookup(origin, f))
  }

  /** Sealing then decrypting gives back the originals. */
  lemma RestoreChain(c: Crypto, priv: RsaPrivateKey, origin: map<string, Bytes>, sealed: map<string, Bytes>,
                     after: map<string, Bytes>, files: seq<string>)
    requires AllOpenTo(c, priv, sealed, origin, files)
    ensures AllOpen(c, priv, sealed, files)
    ensures AllDecrypted(c, priv, sealed, after, files) ==> AllRestored(origin, after, files)
  {
  }

  /** Every call of a pass's record names a listed file. */
  lemma CallsNamed(files: seq<string>, k: nat)
    requires k <= |files|
    ensures CallsWithin(EncryptCalls(files[..k]), files) && CallsWithin(DecryptCalls(files[..k]), files)
  {
    forall i | 0 <= i < k
      ensures EncryptCalls(files[..k])[i].name in files && DecryptCalls(files[..k])[i].name in files
    {
      assert files[..k][i] == files[i];
    }
  }

  lemma CallsWithinAppend(a: seq<Call>, b: seq<Call>, files: seq<string>)
    requires CallsWithin(a, files) && CallsWithin(b, files)
    ensures CallsWithin(a + b, files)
  {
    forall i | 0 <= i < |a + b|
      ensures (a + b)[i].name in files
    {
      if i >= |a| {
        assert (a + b)[i] == b[i - |a|];
      }
    }
  }

  /** Lines 176-180 of `main`: `getUserInputViaPowerShell` asks for the password,
      which nothing reads, through a scratch file in the working directory that
      it removes afterwards; then the decrypt loop runs. */
  method AskAndDecrypt(c: Crypto, store: FileStore, privKey: RsaPrivateKey, files: seq<string>)
    returns (done: nat, stop: Option<Stopped<DecryptError>>, calls: seq<Call>)
    modifies store
    ensures done <= |files|
    ensures stop.None? ==> done == |files|
    ensures stop.Some? ==> 0 < done && stop.value.name == files[done - 1]
    ensures calls == DecryptCalls(files[..done])
    ensures KeptOutside(old(store.files), store.files, files, {PsInputFile})
    ensures PsInputFile !in files ==> PsInputFile !in store.files
    ensures NoDuplicates(files) && PsInputFile !in files ==> (stop.None? <==> AllOpen(c, privKey, old(store.files), files))
    ensures stop.None? && NoDuplicates(files) && AllWritable(store, files) && PsInputFile !in files ==>
              AllDecrypted(c, privKey, old(store.files), store.files, files)
  {
    store.Remove(PsInputFile);
    ghost var prompted := store.files;
    done, stop, calls := DecryptPass(c, store, privKey, files);
    FrameWhole(files, done, prompted, store.files);
    forall f | f !in files && f !in {PsInputFile}
      ensures SameEntry(old(store.files), store.files, f)
    {
      assert SameEntry(old(store.files), prompted, f);
    }
    if PsInputFile !in files {
      assert SameEntry(prompted, store.files, PsInputFile);
      forall f | f in files
        ensures Lookup(prompted, f) == Lookup(old(store.files), f)
      {
      }
    }
  }

  /** The two loops of `main` over the listed files, with the password prompt
      between them: every file is encrypted, then every file is decrypted with
      the matching private key. */
  method ProcessFiles(c: Crypto, store: FileStore, rng: Rng, privKey: RsaPrivateKey, files: seq<string>)
    returns (encStop: Option<Stopped<EncryptError>>, decStop: Option<Stopped<DecryptError>>, log: seq<Call>)
    modifies store, rng
    ensures encStop.Some? ==> decStop.None?
    ensures encStop.None? && decStop.None? ==> log == EncryptCalls(files) + DecryptCalls(files)
    ensures encStop.Some? ==> StoppedEncrypting(log, files, encStop.value.name)
    ensures decStop.Some? ==> StoppedDecrypting(log, files, decStop.value.name)
    ensures CallsWithin(log, files)
    ensures encStop.None? ==> rng.drawn == old(rng.drawn) + |files| * EnvelopeDraw
    ensures KeptOutside(old(store.files), store.files, files, {PsInputFile})
    ensures encStop.Some? ==> KeptOutside(old(store.files), store.files, files, {})
    ensures encStop.None? && PsInputFile !in files ==> PsInputFile !in store.files
    ensures && Lawful(c) && AesKeyLength <= OaepCapacity(PublicOf(privKey))
            && NoDuplicates(files) && AllWritable(store, files) && PsInputFile !in files
            ==> encStop.None? && decStop.None? && AllRestored(old(store.files), store.files, files)
  {
    var encrypted;
    encrypted, encStop, log := EncryptListed(c, store, rng, privKey, files);
    if encStop.Some? {
      return encStop, None, log;
    }
    ghost var sealed := store.files;
    ghost var good := Lawful(c) && AesKeyLength <= OaepCapacity(PublicOf(privKey)) && NoDuplicates(files) && AllWritable(store, files);

    var decrypted, decCalls;
    decrypted, decStop, decCalls := AskAndDecrypt(c, store, privKey, files);
    CombinePhases(c, privKey, files, old(store.files), sealed, store.files, log, decrypted, decStop, decCalls, good, AllWritable(store, files));
    log := log + decCalls;
  }

  /** What the two phases of `ProcessFiles` give together, on the directory's
      contents before the run (`origin`), after encryption (`sealed`) and at the
      end (`final`). */
  lemma CombinePhases(c: Crypto, priv: RsaPrivateKey, files: seq<string>,
                      origin: map<string, Bytes>, sealed: map<string, Bytes>, final: map<string, Bytes>,
                      encCalls: seq<Call>, decrypted: nat, decStop: Option<Stopped<DecryptError>>, decCalls: seq<Call>,
                      good: bool, writable: bool)
    requires encCalls == EncryptCalls(files)
    requires forall f :: f !in files ==> SameEntry(origin, sealed, f)
    requires good ==> NoDuplicates(files) && writable && AllOpenTo(c, priv, sealed, origin, files)
    requires decrypted <= |files|
    requires decStop.None? ==> decrypted == |files|
    requires decStop.Some? ==> 0 < decrypted && decStop.value.name == files[decrypted - 1]
    requires decCalls == DecryptCalls(files[..decrypted])
    requires KeptOutside(sealed, final, files, {PsInputFile})
    requires NoDuplicates(files) && PsInputFile !in files ==> (decStop.None? <==> AllOpen(c, priv, sealed, files))
    requires decStop.None? && NoDuplicates(files) && writable && PsInputFile !in files ==> AllDecrypted(c, priv, sealed, final, files)
    ensures decStop.None? ==> encCalls + decCalls == EncryptCalls(files) + DecryptCalls(files)
    ensures decStop.Some? ==> StoppedDecrypting(encCalls + decCalls, files, decStop.value.name)
    ensures CallsWithin(encCalls + decCalls, files)
    ensures KeptOutside(origin, final, files, {PsInputFile})
    ensures good && PsInputFile !in files ==> decStop.None? && AllRestored(origin, final, files)
  {
    assert files[..|files|] == files;
    CallsNamed(files, |files|);
    CallsNamed(files, decrypted);
    CallsWithinAppend(encCalls, decCalls, files);
    KeptCompose(origin, sealed, final, files, {PsInputFile});
    if good && PsInputFile !in files {
      RestoreChain(c, priv, origin, sealed, final, files);
    }
  }

  /** Lines 170-174 of `main`: the encrypt loop, summarised for the rest of the
      run; under the laws and with a fitting key, every file ends sealed so that
      it opens to its normalised original. */
  method EncryptListed(c: Crypto, store: FileStore, rng: Rng, privKey: RsaPrivateKey, files: seq<string>)
    returns (done: nat, stop: Option<Stopped<EncryptError>>, calls: seq<Call>)
    modifies store, rng
    ensures done <= |files| && calls == EncryptCalls(files[..done]) && CallsWithin(calls, files)
    ensures stop.Some? ==> StoppedEncrypting(calls, files, stop.value.name)
    ensures stop.None? ==> done == |files| && calls == EncryptCalls(files) && rng.drawn == old(rng.drawn) + |files| * EnvelopeDraw
    ensures forall f :: f !in files ==> SameEntry(old(store.files), store.files, f)
    ensures && Lawful(c) && AesKeyLength <= OaepCapacity(PublicOf(privKey))
            && NoDuplicates(files) && AllWritable(store, files)
            ==> stop.None? && AllOpenTo(c, privKey, store.files, old(store.files), files)
  {
    if OaepLaws(c) && AesKeyLength <= OaepCapacity(PublicOf(privKey)) {
      CapacityWrapsAesKeys(c, PublicOf(privKey));
    }
    done, stop, calls := EncryptPass(c, store, PublicOf(privKey), rng, files);
    FrameWhole(files, done, old(store.files), store.files);
    CallsNamed(files, done);
    if stop.Some? {
      assert calls == EncryptCalls(files[..done]) && stop.value.name == files[done - 1];
      return;
    }
    assert files[..done] == files;
    if Lawful(c) && AesKeyLength <= OaepCapacity(PublicOf(privKey)) && NoDuplicates(files) && AllWritable(store, files) {
      SealedAllOpen(c, privKey, old(store.files), store.files, files);
    }
  }

  /** After a complete encrypt pass under the laws, every listed file opens to
      its normalised original. */
  lemma SealedAllOpen(c: Crypto, priv: RsaPrivateKey, origin: map<string, Bytes>, sealed: map<string, Bytes>, files: seq<string>)
    requires Lawful(c)
    requires forall f :: f in files ==> f in sealed && SealedFor(c, PublicOf(priv), sealed[f], Normalise(Lookup(origin, f)))
    ensures forall f :: f in files ==> HybridDecrypt(c, Normalise(Lookup(sealed, f)), priv) == Success(Normalise(Lookup(origin, f)))
  {
    forall f | f in files
      ensures HybridDecrypt(c, Normalise(Lookup(sealed, f)), priv) == Success(Normalise(Lookup(origin, f)))
    {
      SealedOpens(c, priv, sealed[f], Normalise(Lookup(origin, f)));
    }
  }

  lemma KeptCompose(a: map<string, Bytes>, b: map<string, Bytes>, d: map<string, Bytes>, files: seq<string>, spared: set<string>)
    requires forall f :: f !in files ==> SameEntry(a, b, f)
    requires KeptOutside(b, d, files, spared)
    ensures KeptOutside(a, d, files, spared)
  {
    forall f | f !in files && f !in spared
      ensures SameEntry(a, d, f)
    {
      assert SameEntry(a, b, f) && SameEntry(b, d, f);
    }
  }

  /** `main` from the key on: the key is loaded or generated, the neighbouring
      files are listed, each is encrypted once, the password is asked for and
      ignored, and each is decrypted once, in the same order. */
  method Run(c: Crypto, store: FileStore, rng: Rng, listing: seq<DirEntry>, password: Bytes)
    returns (outcome: RunOutcome, files: seq<string>, log: seq<Call>)
    modifies store, rng
    ensures outcome.KeyFailed? ==> store.files == old(store.files) && files == [] && log == []
    ensures !outcome.KeyFailed? ==> files == Neighbours(RegularFiles(listing), FileName(SelfPath), Exclusions)
    ensures forall f :: f in files ==> f != FileName(SelfPath) && f !in Exclusions
    ensures outcome.Completed? ==> log == EncryptCalls(files) + DecryptCalls(files)
    ensures CallsWithin(log, files)
    ensures outcome.EncryptFailed? ==> StoppedEncrypting(log, files, outcome.encryptStop.name)
    ensures outcome.DecryptFailed? ==> StoppedDecrypting(log, files, outcome.decryptStop.name)
    ensures !outcome.KeyFailed? ==> KeptOutside(AfterKeyPhase(c, old(store.files), outcome.key), store.files, files, {PsInputFile})
    ensures outcome.EncryptFailed? ==> KeptOutside(AfterKeyPhase(c, old(store.files), outcome.key), store.files, files, {})
    ensures (outcome.Completed? || outcome.DecryptFailed?) && PsInputFile !in files ==> PsInputFile !in store.files
    ensures Lawful(c) && !old(store.Exists(KeyFile)) && !outcome.KeyFailed? ==>
              AesKeyLength <= OaepCapacity(PublicOf(outcome.key))
    ensures && Lawful(c) && !outcome.KeyFailed? && AesKeyLength <= OaepCapacity(PublicOf(outcome.key))
            && NoDuplicates(files) && AllWritable(store, files) && PsInputFile !in files
            ==> outcome.Completed? && AllRestored(AfterKeyPhase(c, old(store.files), outcome.key), store.files, files)
  {
    var loaded := LoadOrGenerateKey(c, store, KeyFile, rng);
    if loaded.Failure? {
      return KeyFailed(loaded.error), [], [];
    }
    var privKey := loaded.value;
    if !old(store.Exists(KeyFile)) && KeyGenLaws(c) {
      GeneratedKeyWrapsAesKey(privKey);
    }
    assert store.files == AfterKeyPhase(c, old(store.files), privKey);

    files := FindNeighboringFiles(SelfPath, listing, Exclusions);
    var encStop, decStop;
    encStop, decStop, log := ProcessFiles(c, store, rng, privKey, files);
    outcome := if encStop.Some? then EncryptFailed(privKey, encStop.value)
               else if decStop.Some? then DecryptFailed(privKey, decStop.value)
               else Completed(privKey);
  }
}
