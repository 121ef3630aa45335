/** The length of an open file, measured by seeking to its end and back. */
module FileLength {
  datatype Whence = Set | Cur | End

  class Descriptor {
    const length: nat
    var pos: nat

    constructor (length: nat, pos: nat)
      ensures this.length == length && this.pos == pos
    {
      this.length, this.pos := length, pos;
    }

    /** _lseeki64: the new position, or -1 and no move. Any call may fail. */
    method Seek(off: int, whence: Whence, works: bool) returns (r: int)
      modifies this
      ensures
        var target := off + match whence case Set => 0 case Cur => old(pos) case End => length;
        if works && target >= 0 then r == target && pos == target else r == -1 && pos == old(pos)
    {
      var target := off;
      match whence {
        case Set =>
        case Cur => target := target + pos;
        case End => target := target + length;
      }
      if !works || target < 0 { return -1; }
      pos, r := target, target;
    }

    /** _filelengthi64, with each of its seeks failing or not. It returns the length exactly when
        none fails. The position is lost in one case only: the way back fails after the way to
        the end did not, from a position other than the end. */
    method Length(tells: bool, reachesEnd: bool, comesBack: bool) returns (r: int)
      modifies this
      ensures r == if tells && reachesEnd && comesBack then length else -1
      ensures pos == if tells && reachesEnd && !comesBack then length else old(pos)
      ensures pos != old(pos) <==> tells && reachesEnd && !comesBack && old(pos) != length
    {
      var oldPos := Seek(0, Cur, tells);
      var len := -1;
      if oldPos >= 0 { len := Seek(0, End, reachesEnd); }
      r := -1;
      if oldPos >= 0 {
        var back := Seek(oldPos, Set, comesBack);
        if back >= 0 { r := len; }
      }
    }
  }
}
