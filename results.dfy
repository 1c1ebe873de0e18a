/** Option and Result values, and the distinct ways a write pass or a query aborts.
    Each Error constructor stands for one kind of failure in dnase.py; a kind may be
    raised at several lines. */
module Results {

  datatype Option<+T> = None | Some(value: T)

  datatype Error =
    | EmptyLine            // IndexError: `line[0]` on an empty line
    | MalformedHeader      // ValueError: section token does not unpack into chrom:start-end integers
    | MissingColumn        // KeyError: a data row has fewer than four tab-separated fields
    | NoShardName          // saving before any header: the shard name is still ""
    | BadShardField        // ValueError: int() of a shard file name's start or end field
    | MalformedPosition    // ValueError: a "chrom:pos" query endpoint does not unpack into two parts
    | CrossChromosome      // AssertionError: the two query endpoints name different chromosomes
    | BadCoordinate        // ValueError: int() of a query coordinate
    | InvertedRange        // AssertionError: query start is not below query end
    | MissingChromosome    // KeyError: the merged data has no entry for the query chromosome
    | MalformedIntervalKey // ValueError: an interval key is not "<int>-<int>"

  datatype Result<+T> = Ok(value: T) | Err(error: Error)
}
