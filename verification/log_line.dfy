/** `LogLine`: one parsed log record, and the total order Rust derives for it. */
module LogLines {
  import opened Ordering

  const I64_MIN: int := -0x8000_0000_0000_0000
  const I64_MAX: int := 0x7fff_ffff_ffff_ffff

  /** Rust's `i64`. */
  type I64 = x: int | I64_MIN <= x <= I64_MAX

  /** A record: microseconds since the epoch, the host and the service it came
      from, and the message text.  `LogLine::new` is the constructor. */
  datatype LogLine = LogLine(timestamp: I64, hostname: string, service: string, message: string)

  /** Reference definition of the derived order's "x sorts strictly before
      y": the smaller timestamp, then on a tie the smaller hostname, then the
      smaller service, then the smaller message. */
  ghost predicate RanksBefore(x: LogLine, y: LogLine) {
    || x.timestamp < y.timestamp
    || (x.timestamp == y.timestamp && LexLess(x.hostname, y.hostname))
    || (x.timestamp == y.timestamp && x.hostname == y.hostname && LexLess(x.service, y.service))
    || (x.timestamp == y.timestamp && x.hostname == y.hostname && x.service == y.service
        && LexLess(x.message, y.message))
  }

  /** `#[derive(Ord)]`: the fields compared lexicographically in declaration
      order, each later field breaking a tie on the earlier ones.  Records are
      equal only when all four fields are, and otherwise the reference order
      decides which comes first. */
  function Compare(x: LogLine, y: LogLine): (r: Cmp)
    ensures r == Equal <==> x == y
    ensures r == Less <==> RanksBefore(x, y)
    ensures r == Greater <==> RanksBefore(y, x)
  {
    CmpInt(x.timestamp, y.timestamp)
      .Then(CmpStr(x.hostname, y.hostname))
      .Then(CmpStr(x.service, y.service))
      .Then(CmpStr(x.message, y.message))
  }

  /** `x <= y` under the derived order. */
  predicate Le(x: LogLine, y: LogLine) {
    Compare(x, y) != Greater
  }

  /** Comparing the other way round reverses the answer. */
  lemma CompareReverse(x: LogLine, y: LogLine)
    ensures Compare(y, x) == Compare(x, y).Reverse()
  {
  }

  /** Any two records are comparable. */
  lemma LeTotal(x: LogLine, y: LogLine)
    ensures Le(x, y) || Le(y, x)
  {
    CompareReverse(x, y);
  }

  /** Records that sort before each other are the same record. */
  lemma LeAntisymmetric(x: LogLine, y: LogLine)
    requires Le(x, y) && Le(y, x)
    ensures x == y
  {
    CompareReverse(x, y);
  }

  /** The derived order is transitive. */
  lemma LeTransitive(x: LogLine, y: LogLine, z: LogLine)
    requires Le(x, y) && Le(y, z)
    ensures Le(x, z)
  {
    if x != y && y != z {
      LessTransitive(x, y, z);
    }
  }

  lemma LessTransitive(x: LogLine, y: LogLine, z: LogLine)
    requires Compare(x, y) == Less && Compare(y, z) == Less
    ensures Compare(x, z) == Less
  {
    if x.timestamp == y.timestamp == z.timestamp {
      if CmpStr(x.hostname, y.hostname) == Less && CmpStr(y.hostname, z.hostname) == Less {
        CmpStrTransitive(x.hostname, y.hostname, z.hostname);
      } else if x.hostname == y.hostname == z.hostname {
        if CmpStr(x.service, y.service) == Less && CmpStr(y.service, z.service) == Less {
          CmpStrTransitive(x.service, y.service, z.service);
        } else if x.service == y.service == z.service {
          CmpStrTransitive(x.message, y.message, z.message);
        }
      }
    }
  }
}
