/** Types shared by the image provider's components. */
module Common {

  newtype byte = b: int | 0 <= b < 0x100

  /** A byte buffer (Go's []byte), or the bytes of a Go string. */
  type Bytes = seq<byte>

  datatype Option<+T> = None | Some(value: T)

  /** A Go `(value, error)` pair: exactly one of the two is meaningful. */
  datatype Result<+T, +E> = Ok(value: T) | Err(error: E)

  /** The first position holding `key`, as a front-to-back search loop finds it. */
  function FirstIndex(keys: seq<string>, key: string): (r: Option<nat>)
    ensures r.Some? ==> r.value < |keys| && keys[r.value] == key && key !in keys[..r.value]
    ensures r.None? ==> key !in keys
  {
    if keys == [] then None
    else if keys[0] == key then Some(0)
    else
      match FirstIndex(keys[1..], key)
      case None => None
      case Some(k) => assert keys[..k + 1] == [keys[0]] + keys[1..][..k]; Some(k + 1)
  }

  /** A position holding `key` with no earlier occurrence is the one FirstIndex finds. */
  lemma {:induction false} FirstIndexAt(keys: seq<string>, key: string, i: nat)
    requires i < |keys| && keys[i] == key && key !in keys[..i]
    ensures FirstIndex(keys, key) == Some(i)
  {
    if i > 0 {
      assert keys[0] == keys[..i][0];
      assert keys[1..][..i - 1] == keys[1..i];
      assert forall k :: 0 <= k < i - 1 ==> keys[1..i][k] == keys[..i][k + 1];
      FirstIndexAt(keys[1..], key, i - 1);
    }
  }

  /** Pieces glued together with `sep` between neighbours (Go's strings.Join). */
  function JoinWith<T>(parts: seq<seq<T>>, sep: T): seq<T> {
    if parts == [] then []
    else if |parts| == 1 then parts[0]
    else parts[0] + [sep] + JoinWith(parts[1..], sep)
  }

  /**
   * Go's strings.Split with a one-element separator: the pieces between
   * separators, front to back; the empty input is one empty piece.
   */
  function Split<T(==)>(s: seq<T>, sep: T): (r: seq<seq<T>>)
    ensures |r| >= 1
    ensures forall k :: 0 <= k < |r| ==> sep !in r[k]
    ensures JoinWith(r, sep) == s
  {
    if s == [] then [[]]
    else
      var rest := Split(s[1..], sep);
      if s[0] == sep then
        [[]] + rest
      else
        assert |rest| > 1 ==> JoinWith(rest, sep) == rest[0] + [sep] + JoinWith(rest[1..], sep);
        [[s[0]] + rest[0]] + rest[1..]
  }

  /** Splitting undoes joining, when no piece holds the separator. */
  lemma {:induction false} SplitJoin<T>(parts: seq<seq<T>>, sep: T)
    requires |parts| >= 1
    requires forall k :: 0 <= k < |parts| ==> sep !in parts[k]
    ensures Split(JoinWith(parts, sep), sep) == parts
    decreases |JoinWith(parts, sep)|
  {
    var p := parts[0];
    if p != [] {
      var s := JoinWith(parts, sep);
      var tail := [p[1..]] + parts[1..];
      assert s[0] == p[0] && s[0] != sep by {
        assert p[0] in parts[0];
        if |parts| > 1 {
          assert s == p + [sep] + JoinWith(parts[1..], sep);
        }
      }
      assert s[1..] == JoinWith(tail, sep) by {
        if |parts| > 1 {
          assert tail[1..] == parts[1..];
        }
      }
      assert forall x :: x in p[1..] ==> x in p;
      SplitJoin(tail, sep);
      assert [p[0]] + p[1..] == p;
      assert [[p[0]] + p[1..]] + parts[1..] == parts;
    } else if |parts| > 1 {
      assert JoinWith(parts, sep) == [sep] + JoinWith(parts[1..], sep);
      assert JoinWith(parts, sep)[1..] == JoinWith(parts[1..], sep);
      SplitJoin(parts[1..], sep);
    }
  }
}
