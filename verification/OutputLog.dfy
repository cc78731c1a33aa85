/**
  The output file as an append log behind a write buffer, and the two-part payload
  that is streamed into it. System-call failures are not modelled.
 */
module OutputLog {
  import opened Results
  import opened Bytes

  datatype ReadError = PayloadTooShort

  class OutputFile {
    var file: seq<Byte>
    const buffer: array<Byte>
    var fill: nat

    ghost predicate Valid()
      reads this
    {
      fill <= buffer.Length && buffer.Length >= 1
    }

    /** Everything appended so far, on disk or still buffered. */
    ghost function Contents(): seq<Byte>
      reads this, buffer
      requires Valid()
    {
      file + buffer[..fill]
    }

    constructor (capacity: nat)
      ensures Valid() && fresh(buffer) && Contents() == []
    {
      file, fill := [], 0;
      buffer := new Byte[if capacity < 1 then 1 else capacity](_ => 0);
    }

    /** Empties the buffer onto the disk. */
    method Drain()
      requires Valid()
      modifies this`file, this`fill
      ensures Valid() && fill == 0 && Contents() == old(Contents())
    {
      file := file + buffer[..fill];
      fill := 0;
    }

    method Write(bytes: seq<Byte>)
      requires Valid()
      modifies this`file, this`fill, buffer
      ensures Valid() && Contents() == old(Contents()) + bytes
    {
      if bytes == [] {
        return;
      }
      ghost var before := Contents();
      if |bytes| >= buffer.Length {
        Drain();
        file := file + bytes;
        return;
      }
      if fill + |bytes| > buffer.Length {
        Drain();
      }
      ghost var held := buffer[..fill];
      forall i | 0 <= i < |bytes| {
        buffer[fill + i] := bytes[i];
      }
      fill := fill + |bytes|;
      assert buffer[..fill] == held + bytes;
    }

    /** Appends a stretch of another file: buffered bytes land first. */
    method SendFrom(input: seq<Byte>, offset: nat, length: nat)
      requires Valid() && offset + length <= |input|
      modifies this`file, this`fill
      ensures Valid() && Contents() == old(Contents()) + input[offset..offset + length]
    {
      Drain();
      file := file + input[offset..offset + length];
    }
  }

  /** A template in memory, then an encrypted file. */
  class PayloadSource {
    const template: seq<Byte>
    const encrypted: seq<Byte>
    var templateOffset: nat
    var encryptedOffset: nat

    ghost predicate Valid()
      reads this
    {
      && templateOffset <= |template| && encryptedOffset <= |encrypted|
      && (encryptedOffset > 0 ==> templateOffset == |template|)
    }

    /** What is still to be copied. */
    ghost function Rest(): seq<Byte>
      reads this
      requires Valid()
    {
      template[templateOffset..] + encrypted[encryptedOffset..]
    }

    constructor (template: seq<Byte>, encrypted: seq<Byte>)
      ensures Valid() && Rest() == template + encrypted
      ensures this.template == template && this.encrypted == encrypted
    {
      this.template, this.encrypted := template, encrypted;
      templateOffset, encryptedOffset := 0, 0;
    }

    /** Appends as much of `size` bytes as the template still has. */
    method CopyTemplate(out: OutputFile, size: nat) returns (left: nat)
      requires Valid() && out.Valid()
      modifies this`templateOffset, out`file, out`fill, out.buffer
      ensures Valid() && out.Valid() && left <= size && (left > 0 ==> templateOffset == |template|)
      ensures size - left <= old(|Rest()|) && Rest() == old(Rest())[size - left..]
      ensures out.Contents() == old(out.Contents()) + old(Rest())[..size - left]
    {
      left := size;
      ghost var rest := Rest();
      if templateOffset < |template| {
        var take := if left < |template| - templateOffset then left else |template| - templateOffset;
        out.Write(template[templateOffset..templateOffset + take]);
        assert template[templateOffset..templateOffset + take] == rest[..take];
        templateOffset := templateOffset + take;
        left := left - take;
      } else {
        assert rest[..0] == [] && rest[0..] == rest;
      }
    }

    /** Appends exactly `size` bytes, template first; fails only when fewer are left. */
    method CopyTo(out: OutputFile, size: nat) returns (r: Result<(), ReadError>)
      requires Valid() && out.Valid()
      modifies this, out`file, out`fill, out.buffer
      ensures r.Ok? <==> size <= old(|Rest()|)
      ensures Valid() && out.Valid()
      ensures r.Ok? ==> Rest() == old(Rest())[size..] && out.Contents() == old(out.Contents()) + old(Rest())[..size]
    {
      ghost var rest, before := Rest(), out.Contents();
      var left := CopyTemplate(out, size);
      ghost var later, middle := Rest(), out.Contents();
      hide PayloadSource.Rest, OutputFile.Contents;
      r := CopyEncrypted(out, left);
      if r.Ok? {
        TwoParts(before, rest, size - left, left);
      }
    }

    /** Streams from the encrypted file, once the template is used up. */
    method CopyEncrypted(out: OutputFile, left: nat) returns (r: Result<(), ReadError>)
      requires Valid() && out.Valid() && (left > 0 ==> templateOffset == |template|)
      modifies this`encryptedOffset, out`file, out`fill
      ensures r.Ok? <==> left <= old(|Rest()|)
      ensures Valid() && out.Valid()
      ensures r.Ok? ==> Rest() == old(Rest())[left..] && out.Contents() == old(out.Contents()) + old(Rest())[..left]
    {
      if left > 0 {
        if left > |encrypted| - encryptedOffset {
          return Err(PayloadTooShort);
        }
        assert Rest() == encrypted[encryptedOffset..];
        out.SendFrom(encrypted, encryptedOffset, left);
        encryptedOffset := encryptedOffset + left;
      }
      return Ok(());
    }

    static lemma TwoParts(before: seq<Byte>, rest: seq<Byte>, a: nat, b: nat)
      requires a + b <= |rest|
      ensures (before + rest[..a]) + rest[a..][..b] == before + rest[..a + b] && rest[a..][b..] == rest[a + b..]
    {
      assert rest[..a] + rest[a..][..b] == rest[..a + b];
    }

    method Exhausted() returns (done: bool)
      requires Valid()
      ensures done <==> Rest() == []
    {
      done := templateOffset == |template| && encryptedOffset == |encrypted|;
    }
  }
}
