/**
 * The file system and the encoder as the attempt runner sees them. The file
 * system is a set of existing paths plus a fixed set of paths on which every
 * operation fails (a read-only directory, a full disk); the encoder's outcome is
 * an input. Every operation is recorded in a trace.
 */
module Files {

  /** What can be thrown out of an attempt or out of the run loop. */
  datatype Error =
    | EncodingError   // the encoder failed (ffmpeg's error event)
    | FileSystemError // a move, touch or remove failed
    | TypeError       // JavaScript's TypeError, e.g. reading a property of undefined

  /** What the encoder did: finished, or failed after or before writing any output. */
  datatype EncoderOutcome = Encoded | EncodeFailed(wroteOutput: bool)

  predicate WritesOutput(outcome: EncoderOutcome) {
    outcome.Encoded? || outcome.wroteOutput
  }

  /** One operation on the file system and how it went. */
  datatype Op =
    | Encode(source: string, destination: string, outcome: EncoderOutcome)
    | Move(from: string, to: string, succeeded: bool)
    | Probe(path: string, found: bool)
    | Touch(path: string, succeeded: bool)
    | Remove(path: string, succeeded: bool)

  class FileSystem {
    var paths: set<string>
    const faulty: set<string>
    var trace: seq<Op>

    constructor (existing: set<string>, failing: set<string>)
      ensures paths == existing && faulty == failing && trace == []
    {
      paths := existing;
      faulty := failing;
      trace := [];
    }

    /** Runs the encoder from `source` into `destination`; it creates `destination` when it writes output. */
    method RunEncoder(source: string, destination: string, outcome: EncoderOutcome) returns (ok: bool)
      modifies this
      ensures ok <==> outcome.Encoded?
      ensures paths == if WritesOutput(outcome) then old(paths) + {destination} else old(paths)
      ensures trace == old(trace) + [Op.Encode(source, destination, outcome)]
    {
      if WritesOutput(outcome) {
        paths := paths + {destination};
      }
      trace := trace + [Op.Encode(source, destination, outcome)];
      ok := outcome.Encoded?;
    }

    /** `mv(from, to)`: a rename, which fails when `from` is missing or either end is faulty. */
    method Move(from: string, to: string) returns (ok: bool)
      modifies this
      ensures ok <==> from in old(paths) && from !in faulty && to !in faulty
      ensures paths == if ok then old(paths) - {from} + {to} else old(paths)
      ensures trace == old(trace) + [Op.Move(from, to, ok)]
    {
      ok := from in paths && from !in faulty && to !in faulty;
      if ok {
        paths := paths - {from} + {to};
      }
      trace := trace + [Op.Move(from, to, ok)];
    }

    /** `exists(path)`. */
    method Exists(path: string) returns (found: bool)
      modifies this
      ensures found <==> path in paths
      ensures paths == old(paths)
      ensures trace == old(trace) + [Op.Probe(path, found)]
    {
      found := path in paths;
      trace := trace + [Op.Probe(path, found)];
    }

    /** `touch(path)`: writes an empty file; fails on a faulty path. */
    method Touch(path: string) returns (ok: bool)
      modifies this
      ensures ok <==> path !in faulty
      ensures paths == if ok then old(paths) + {path} else old(paths)
      ensures trace == old(trace) + [Op.Touch(path, ok)]
    {
      ok := path !in faulty;
      if ok {
        paths := paths + {path};
      }
      trace := trace + [Op.Touch(path, ok)];
    }

    /** `rm(path)`: removing a missing file succeeds; fails on a faulty path. */
    method Remove(path: string) returns (ok: bool)
      modifies this
      ensures ok <==> path !in faulty
      ensures paths == if ok then old(paths) - {path} else old(paths)
      ensures trace == old(trace) + [Op.Remove(path, ok)]
    {
      ok := path !in faulty;
      if ok {
        paths := paths - {path};
      }
      trace := trace + [Op.Remove(path, ok)];
    }
  }
}
